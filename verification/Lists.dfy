/** The sorted singly linked list that is one row of the hash table. */
module Lists {
  import opened CString
  import opened EntrySeq

  /** `entry_compare`: the order of the keys, or -2 when an entry is invalid. */
  function EntryCompare(a: Entry, b: Entry): int {
    if !ValueOk(a.value) || !ValueOk(b.value) then -2 else StrCmp(a.key, b.key)
  }

  class Node {
    var entry: Entry
    var next: Node?

    constructor (entry: Entry, next: Node?)
      ensures this.entry == entry && this.next == next
    {
      this.entry, this.next := entry, next;
    }
  }

  class List {
    var size: int
    var head: Node?

    ghost var nodes: seq<Node>
    ghost var contents: seq<Entry>
    ghost var Repr: set<object>

    /** The nodes from `head` on end in null and carry `contents`. */
    ghost predicate Linked()
      reads `head, `nodes, `contents, `Repr, nodes
    {
      && this in Repr
      && |contents| == |nodes|
      && head == (if nodes == [] then null else nodes[0])
      && (forall i :: 0 <= i < |nodes| ==> nodes[i] in Repr)
      && (forall i :: 0 <= i < |nodes| ==> nodes[i].entry == contents[i])
      && (forall i {:trigger nodes[i].next} :: 0 <= i < |nodes| ==>
                                             nodes[i].next == if i + 1 < |nodes| then nodes[i + 1] else null)
    }

    ghost predicate Valid()
      reads this, Repr
      ensures Valid() ==> this in Repr
    {
      && this in Repr
      && (forall n :: n in nodes ==> n in Repr)
      && Linked()
      && Ordered(contents)
      && size == |contents|
    }

    constructor ()
      ensures Valid() && fresh(Repr)
      ensures contents == []
    {
      size, head := 0, null;
      nodes, contents := [], [];
      Repr := {this};
    }

    /** `valid_list`: 0 exactly when the size is not negative for a non-empty list and every entry is valid. */
    method ValidList() returns (result: int)
      requires Linked()
      ensures result == 0 || result == -1
      ensures result == 0 <==> (nodes != [] ==> size >= 0) && ValuesOk(contents)
    {
      if head != null && size < 0 {
        return -1;
      }
      var current := head;
      ghost var i := 0;
      while current != null
        invariant 0 <= i <= |nodes|
        invariant current == if i < |nodes| then nodes[i] else null
        invariant forall j :: 0 <= j < i ==> ValueOk(contents[j].value)
        decreases |nodes| - i
      {
        var next := current.next;
        if !ValueOk(current.entry.value) {
          return -1;
        }
        current := next;
        i := i + 1;
      }
      return 0;
    }

    /** Hang a new node between `previous` and the node at position i. The caller adjusts `size`. */
    method LinkNode(ghost i: nat, previous: Node?, entry: Entry, ghost after: seq<Entry>)
      requires Linked() && i <= |nodes|
      requires previous == if i == 0 then null else nodes[i - 1]
      requires forall j :: 0 <= j < |nodes| && j != i - 1 ==> nodes[j] != previous
      requires after == contents[..i] + [entry] + contents[i..]
      modifies Repr
      ensures Linked() && fresh(Repr - old(Repr))
      ensures contents == after
      ensures size == old(size)
    {
      var current := if previous == null then head else previous.next;
      var newNode := new Node(entry, current);
      if previous == null {
        head := newNode;
      } else {
        previous.next := newNode;
      }
      nodes := Shifted(nodes, newNode, i);
      contents := Shifted(contents, entry, i);
      Repr := Repr + {newNode};
    }

    /** Put another entry in the node at position i. */
    method ReplaceEntry(ghost i: nat, node: Node, entry: Entry)
      requires Linked() && i < |nodes| && node == nodes[i]
      requires forall j :: 0 <= j < |nodes| && j != i ==> nodes[j] != node
      modifies node, this
      ensures Linked() && Repr == old(Repr)
      ensures contents == old(contents)[i := entry]
      ensures size == old(size)
    {
      node.entry := entry;
      contents := contents[i := entry];
    }

    /** The traversal of `list_add`: stop at the first node that is not smaller, or at the last node. */
    method Seek(entry: Entry) returns (previous: Node?, current: Node, compare: int, ghost i: nat)
      requires Valid() && nodes != [] && ValueOk(entry.value)
      ensures i < |nodes| && current == nodes[i]
      ensures previous == if i == 0 then null else nodes[i - 1]
      ensures compare == StrCmp(entry.key, contents[i].key) && -1 <= compare <= 1
      ensures forall j :: 0 <= j < i ==> Less(contents[j].key, entry.key)
      ensures compare == 1 ==> i == |nodes| - 1
    {
      current, previous, i := head, null, 0;
      compare := EntryCompare(entry, current.entry);
      while compare != -1 && compare != 0 && current.next != null
        invariant i < |nodes| && current == nodes[i]
        invariant previous == if i == 0 then null else nodes[i - 1]
        invariant compare == StrCmp(entry.key, contents[i].key)
        invariant forall j :: 0 <= j < i ==> Less(contents[j].key, entry.key)
        decreases |nodes| - i
      {
        StrCmpSign(entry.key, contents[i].key);
        previous, current, i := current, current.next, i + 1;
        compare := EntryCompare(entry, current.entry);
      }
      StrCmpSign(entry.key, contents[i].key);
      assert i + 1 < |nodes| ==> current.next == nodes[i + 1];
    }

    /** Nodes of a list are distinct, because their keys are. */
    lemma NodesDistinct(i: nat)
      requires Valid() && i < |nodes|
      ensures forall j :: 0 <= j < |nodes| && j != i ==> nodes[j] != nodes[i]
    {
      KeyUnique(contents, i);
    }

    /** `list_add` on a list of one node. */
    method AddToSingle(entry: Entry) returns (result: int)
      requires Valid() && size == 1 && ValueOk(entry.value)
      modifies Repr
      ensures Valid() && fresh(Repr - old(Repr))
      ensures contents == Insert(old(contents), entry)
      ensures result == if HasKey(old(contents), entry.key) then 1 else 0
    {
      ghost var after := Insert(contents, entry);
      InsertOrdered(contents, entry);
      InsertIntoSingle(contents, entry);
      var compare := EntryCompare(head.entry, entry);
      if compare == 1 {
        LinkNode(0, null, entry, after);
        size := 2;
        result := 0;
      } else if compare == 0 {
        ReplaceEntry(0, head, entry);
        result := 1;
      } else {
        LinkNode(1, head, entry, after);
        size := 2;
        result := 0;
      }
    }

    /** `list_add` by traversal. */
    method AddToMany(entry: Entry) returns (result: int)
      requires Valid() && size > 0 && ValueOk(entry.value)
      modifies Repr
      ensures Valid() && fresh(Repr - old(Repr))
      ensures contents == Insert(old(contents), entry)
      ensures result == if HasKey(old(contents), entry.key) then 1 else 0
    {
      ghost var after := Insert(contents, entry);
      InsertOrdered(contents, entry);
      var previous, current, compare, i := Seek(entry);
      InsertAtStop(contents, entry, i);
      NodesDistinct(i);
      if compare == -1 {
        if i > 0 {
          NodesDistinct(i - 1);
        }
        LinkNode(i, previous, entry, after);
        size := size + 1;
        result := 0;
      } else if compare == 0 {
        ReplaceEntry(i, current, entry);
        result := 1;
      } else {
        LinkNode(i + 1, current, entry, after);
        size := size + 1;
        result := 0;
      }
    }

    /** `list_add`. All three code paths amount to one sorted insertion. */
    method Add(entry: Entry) returns (result: int)
      requires Valid()
      modifies Repr
      ensures Valid() && fresh(Repr - old(Repr))
      ensures entry.value == [] ==> result == -1 && contents == old(contents)
      ensures entry.value != [] ==>
                && contents == Insert(old(contents), entry)
                && result == if HasKey(old(contents), entry.key) then 1 else 0
    {
      var valid := ValidList();
      if valid == -1 {
        return -1;
      }
      if !ValueOk(entry.value) {
        return -1;
      }
      if size == 0 {
        ghost var after := Insert(contents, entry);
        InsertOrdered(contents, entry);
        LinkNode(0, null, entry, after);
        size := 1;
        return 0;
      }
      if size == 1 {
        result := AddToSingle(entry);
        return;
      }
      result := AddToMany(entry);
    }

    /** Take the node at position i out of the chain. The caller adjusts `size`. */
    method UnlinkNode(ghost i: nat, previous: Node?, current: Node, ghost after: seq<Entry>)
      requires Linked() && i < |nodes| && current == nodes[i]
      requires previous == if i == 0 then null else nodes[i - 1]
      requires forall j :: 0 <= j < |nodes| && j != i - 1 ==> nodes[j] != previous
      requires after == contents[..i] + contents[i + 1..]
      modifies Repr
      ensures Linked() && Repr == old(Repr)
      ensures contents == after
      ensures size == old(size)
    {
      if previous == null {
        head := current.next;
      } else {
        previous.next := current.next;
      }
      nodes := Closed(nodes, i);
      contents := Closed(contents, i);
    }

    /** The traversal of `list_remove`: stop at the node with the key, or past the end. */
    method Find(key: Key) returns (previous: Node?, current: Node?, ghost i: nat)
      requires Valid()
      ensures i <= |nodes|
      ensures current == if i < |nodes| then nodes[i] else null
      ensures previous == if i == 0 then null else nodes[i - 1]
      ensures forall j :: 0 <= j < i ==> contents[j].key != key
      ensures i < |nodes| ==> contents[i].key == key
    {
      current, previous, i := head, null, 0;
      while current != null && StrCmp(key, current.entry.key) != 0
        invariant i <= |nodes|
        invariant current == if i < |nodes| then nodes[i] else null
        invariant previous == if i == 0 then null else nodes[i - 1]
        invariant forall j :: 0 <= j < i ==> contents[j].key != key
        decreases |nodes| - i
      {
        StrCmpSign(key, current.entry.key);
        previous, current, i := current, current.next, i + 1;
      }
      if current != null {
        StrCmpSign(key, current.entry.key);
      }
    }

    /** `list_remove` */
    method Remove(key: Key) returns (result: int)
      requires Valid()
      modifies Repr
      ensures Valid() && Repr == old(Repr)
      ensures contents == Delete(old(contents), key)
      ensures result == if HasKey(old(contents), key) then 0 else 1
    {
      hide Less;
      var valid := ValidList();
      if valid == -1 {
        return -1;
      }
      if size == 0 {
        return 1;
      }
      ghost var after := Delete(contents, key);
      var previous, current, i := Find(key);
      DeleteAtStop(contents, key, i);
      if current == null {
        return 1;
      }
      if i > 0 {
        NodesDistinct(i - 1);
      }
      UnlinkNode(i, previous, current, after);
      size := size - 1;
      return 0;
    }

    /** `list_get` */
    method Get(key: Key) returns (result: Option<Entry>)
      requires Valid()
      ensures result == None ==> !HasKey(contents, key)
      ensures result.Some? ==> result.value in contents && result.value.key == key
    {
      var valid := ValidList();
      if valid == -1 {
        return None;
      }
      if size == 0 {
        return None;
      }
      var current := head;
      ghost var i := 0;
      while current != null
        invariant 0 <= i <= |nodes|
        invariant current == if i < |nodes| then nodes[i] else null
        invariant forall j :: 0 <= j < i ==> contents[j].key != key
        decreases |nodes| - i
      {
        StrCmpSign(key, current.entry.key);
        if StrCmp(key, current.entry.key) == 0 {
          return Some(current.entry);
        }
        current := current.next;
        i := i + 1;
      }
      return None;
    }

    /** `list_size` */
    method Size() returns (result: int)
      requires Valid()
      ensures result == |contents|
    {
      var valid := ValidList();
      if valid == -1 {
        return -1;
      }
      return size;
    }

    /** `list_get_keys`: null for an empty list, else the keys in order and a null at the end. */
    method GetKeys() returns (keys: array?<Option<Key>>)
      requires Valid()
      ensures keys == null <==> contents == []
      ensures keys != null ==> fresh(keys) && IsKeyArray(keys[..], Keys(contents))
    {
      var valid := ValidList();
      if valid == -1 {
        return null;
      }
      if size == 0 {
        return null;
      }
      keys := new Option<Key>[size + 1](_ => None);
      var current := head;
      var index := 0;
      while current != null
        invariant 0 <= index <= |nodes|
        invariant current == if index < |nodes| then nodes[index] else null
        invariant forall j :: 0 <= j < index ==> keys[j] == Some(contents[j].key)
        invariant forall j :: index <= j < keys.Length ==> keys[j] == None
        decreases |nodes| - index
      {
        keys[index] := Some(current.entry.key);
        index := index + 1;
        current := current.next;
      }
    }
  }

  /** A null-terminated array holding exactly the given keys. */
  ghost predicate IsKeyArray(a: seq<Option<Key>>, keys: seq<Key>) {
    && |a| == |keys| + 1
    && (forall i :: 0 <= i < |keys| ==> a[i] == Some(keys[i]))
    && a[|keys|] == None
  }

  /** Positions before and after a gap opened in a sequence. */
  lemma Shifted<T>(s: seq<T>, x: T, i: nat) returns (r: seq<T>)
    requires i <= |s|
    ensures r == s[..i] + [x] + s[i..]
    ensures |r| == |s| + 1 && r[i] == x
    ensures forall j :: 0 <= j < i ==> r[j] == s[j]
    ensures forall j {:trigger r[j]} :: i < j < |r| ==> r[j] == s[j - 1]
  {
    r := s[..i] + [x] + s[i..];
  }

  lemma Closed<T>(s: seq<T>, i: nat) returns (r: seq<T>)
    requires i < |s|
    ensures r == s[..i] + s[i + 1..]
    ensures |r| == |s| - 1
    ensures forall j :: 0 <= j < i ==> r[j] == s[j]
    ensures forall j {:trigger r[j]} :: i <= j < |r| ==> r[j] == s[j + 1]
  {
    r := s[..i] + s[i + 1..];
  }

  lemma InsertOrdered(s: seq<Entry>, e: Entry)
    requires Ordered(s) && ValueOk(e.value)
    ensures Ordered(Insert(s, e))
    ensures |Insert(s, e)| == if HasKey(s, e.key) then |s| else |s| + 1
    ensures s == [] ==> Insert(s, e) == s[..0] + [e] + s[0..]
  {
    InsertSorted(s, e);
  }

  /** The traversal has passed smaller keys only; what insertion does where it stops. */
  lemma InsertAtStop(s: seq<Entry>, e: Entry, i: nat)
    requires Sorted(s) && i < |s|
    requires forall j :: 0 <= j < i ==> Less(s[j].key, e.key)
    requires StrCmp(e.key, s[i].key) == 1 ==> i == |s| - 1
    ensures StrCmp(e.key, s[i].key) == -1 ==> Insert(s, e) == s[..i] + [e] + s[i..] && !HasKey(s, e.key)
    ensures StrCmp(e.key, s[i].key) == 0 ==> Insert(s, e) == s[i := e] && HasKey(s, e.key)
    ensures StrCmp(e.key, s[i].key) == 1 ==> Insert(s, e) == s[..i + 1] + [e] + s[i + 1..] && !HasKey(s, e.key)
  {
    var n := InsertPosition(s, e);
    StrCmpSign(e.key, s[i].key);
    var stop := if StrCmp(e.key, s[i].key) == 1 then i + 1 else i;
    InsertAfterPrefix(s, e, stop);
    assert stop < |s| ==> !Less(s[stop].key, e.key);
    assert n == stop;
    if StrCmp(e.key, s[i].key) == 0 {
      assert s[i].key == e.key;
    }
  }

  /** The comparisons of the single-node path decide the same way. */
  lemma InsertIntoSingle(s: seq<Entry>, e: Entry)
    requires |s| == 1 && Ordered(s) && ValueOk(e.value)
    ensures EntryCompare(s[0], e) == 1 ==> Insert(s, e) == s[..0] + [e] + s[0..] && !HasKey(s, e.key)
    ensures EntryCompare(s[0], e) == 0 ==> Insert(s, e) == s[0 := e] && HasKey(s, e.key)
    ensures EntryCompare(s[0], e) == -1 ==> Insert(s, e) == s[..1] + [e] + s[1..] && !HasKey(s, e.key)
    ensures EntryCompare(s[0], e) in {-1, 0, 1}
  {
    StrCmpSign(s[0].key, e.key);
    InsertAtStop(s, e, 0);
  }

  lemma DeleteAtStop(s: seq<Entry>, k: Key, i: nat)
    requires Ordered(s)
    requires i <= |s| && forall j :: 0 <= j < i ==> s[j].key != k
    requires i < |s| ==> s[i].key == k
    ensures Ordered(Delete(s, k))
    ensures i < |s| ==> Delete(s, k) == s[..i] + s[i + 1..] && HasKey(s, k)
    ensures i == |s| ==> Delete(s, k) == s && !HasKey(s, k)
  {
    DeleteSorted(s, k);
    DeleteAfterPrefix(s, k, i);
    if i < |s| {
      assert s[i..][1..] == s[i + 1..];
    } else {
      assert s[..i] == s && s[i..] == [];
    }
  }
}
