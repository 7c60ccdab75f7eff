/** The servers of a chain joined by the links that each of them selects, and a client that writes at the
    head and reads at the tail. */
module Clients {
  import opened CString
  import opened EntrySeq
  import opened Framing
  import opened Tables
  import opened Sorting
  import opened Topology
  import opened Updates
  import opened Servers

  /** The servers that a chain of ids leads to. */
  ghost function RowOf(chain: seq<Key>, directory: map<Key, Server>): seq<Server>
    requires forall x :: x in chain ==> x in directory
  {
    seq(|chain|, i requires 0 <= i < |chain| => directory[chain[i]])
  }

  /** A chain of server ids, each of which leads to the server that has it. */
  ghost predicate Listed(chain: seq<Key>, directory: map<Key, Server>) {
    IsChain(chain) && chain != [] && forall x :: x in chain ==> x in directory && directory[x].id == x
  }

  /** The sorted listing of any servers with distinct ids is one. */
  lemma SortedIdsAreListed(sorted: seq<Key>, directory: map<Key, Server>)
    requires Ascending(sorted) && sorted != [] && forall x :: x in sorted ==> multiset(sorted)[x] == 1
    requires forall x :: x in sorted ==> x in directory && directory[x].id == x
    ensures Listed(sorted, directory)
  {
    EveryServerSeesTheSameChain(sorted, sorted);
  }

  /** Every server's `next` is what `select_next_server` makes it. */
  ghost predicate Linked(chain: seq<Key>, directory: map<Key, Server>)
    reads directory.Values
  {
    && Listed(chain, directory)
    && forall x :: x in chain ==> directory[x].next == Successor(directory, chain, x)
  }

  /** What stands behind position i of a row. */
  function After(row: seq<Server>, i: nat): Server? {
    if i + 1 < |row| then row[i + 1] else null
  }

  /** Each server is connected to the one behind it, and the last one to none. */
  ghost predicate Connected(row: seq<Server>)
    reads row
  {
    forall i :: 0 <= i < |row| ==> row[i].next == After(row, i)
  }

  lemma ConnectedBehind(row: seq<Server>)
    requires row != []
    ensures Connected(row) <==> row[0].next == After(row, 0) && Connected(row[1..])
  {
    var behind := row[1..];
    assert forall i :: 0 <= i < |behind| ==> behind[i] == row[i + 1] && After(behind, i) == After(row, i + 1);
    if Connected(behind) && row[0].next == After(row, 0) {
      forall i | 0 <= i < |row| ensures row[i].next == After(row, i) {
        assert i > 0 ==> row[i] == behind[i - 1];
      }
    }
  }

  // ---------- From links to one row ----------

  /** The links that the servers select by id are the links by position. */
  lemma LinkedMeansConnected(chain: seq<Key>, directory: map<Key, Server>)
    requires Listed(chain, directory)
    ensures Linked(chain, directory) <==> Connected(RowOf(chain, directory))
  {
    hide NextId, Less, IsChain;
    var row := RowOf(chain, directory);
    forall i | 0 <= i < |row|
      ensures Successor(directory, chain, chain[i]) == After(row, i)
    {
      LinksFollowPositions(chain, i);
    }
    if Connected(row) {
      forall x | x in chain ensures directory[x].next == Successor(directory, chain, x) {
        var i :| 0 <= i < |chain| && chain[i] == x;
        assert row[i] == directory[x];
      }
    }
    if Linked(chain, directory) {
      forall i | 0 <= i < |row| ensures row[i].next == After(row, i) {
        assert chain[i] in chain;
      }
    }
  }

  /** A server's record is right about everything behind it: which servers there are, how they are
      connected, and what their tables hold. */
  lemma {:induction false} RecordIsRight(server: Server)
    requires server.Valid()
    ensures Connected(server.row) && |server.row| == |server.stores| > 0 && server.row[0] == server
    ensures forall i :: 0 <= i < |server.row| ==>
              var s := server.row[i];
              && s in server.Repr && s.Valid() && s.row == server.row[i..]
              && s.table.Valid() && server.stores[i] == s.table.M
    decreases server.Repr
  {
    hide Server.Valid, Table.Valid, Connected;
    OneStep(server);
    ConnectedBehind(server.row);
    if server.next != null {
      var behind := server.next;
      RecordIsRight(behind);
      assert server.row[1..] == behind.row;
      forall i | 0 < i < |server.row|
        ensures server.row[i] == behind.row[i - 1] && server.row[i..] == behind.row[i - 1..]
      {
      }
      assert behind.row[0..] == behind.row;
    } else {
      EndOfRow();
      assert server.row[1..] == [];
    }
    assert server.row[0..] == server.row;
  }

  lemma OneStep(server: Server)
    requires server.Valid()
    ensures server in server.Repr && server.table.Valid()
    ensures server.next == null ==> server.row == [server] && server.stores == [server.table.M]
    ensures server.next != null ==>
              && server.next.Valid() && server.next.Repr < server.Repr
              && server.row == [server] + server.next.row && server.stores == [server.table.M] + server.next.stores
  {
    hide Table.Valid;
  }

  lemma EndOfRow()
    ensures Connected([])
  {
  }

  /** There is one row that starts at a server and follows the connections to the end. */
  lemma {:induction false} RowIsUnique(row: seq<Server>)
    requires row != [] && row[0].Valid() && Connected(row)
    ensures row == row[0].row
  {
    hide Table.Valid, Connected;
    ConnectedBehind(row);
    if |row| > 1 {
      RowIsUnique(row[1..]);
      assert row == [row[0]] + row[1..];
    }
  }

  /** The links lead from the head through the whole chain exactly if the head has the chain on record. */
  lemma LinksLeadThroughTheChain(chain: seq<Key>, directory: map<Key, Server>)
    requires Listed(chain, directory) && directory[chain[0]].Valid()
    ensures Linked(chain, directory) <==> directory[chain[0]].row == RowOf(chain, directory)
  {
    hide Server.Valid, IsChain, Successor;
    LinkedMeansConnected(chain, directory);
    var row := RowOf(chain, directory);
    assert row[0] == directory[chain[0]];
    RecordIsRight(row[0]);
    if Connected(row) {
      RowIsUnique(row);
    }
  }

  // ---------- Building the row ----------

  /** A server, its table and the objects of that. */
  ghost function Own(server: Server): set<object>
    reads server.table
  {
    {server, server.table} + server.table.Repr
  }

  /** The objects of a row of servers. */
  ghost function Objects(row: seq<Server>): set<object>
    reads set s | s in row :: s.table
  {
    if row == [] then {} else Own(row[0]) + Objects(row[1..])
  }

  /** Tables in order, and nothing shared between two servers. */
  ghost predicate Separate(row: seq<Server>)
    reads set s | s in row :: s.table, set s, o | s in row && o in s.table.Repr :: o
  {
    && (forall s :: s in row ==> s.table.Valid() && s !in s.table.Repr)
    && forall i, j :: 0 <= i < j < |row| ==> Own(row[i]) !! Own(row[j])
  }

  lemma {:induction false} InObjects(row: seq<Server>)
    ensures forall s :: s in row ==> s in Objects(row)
    ensures forall o :: o in Objects(row) ==> exists s :: s in row && o in Own(s)
  {
    if row != [] {
      InObjects(row[1..]);
      assert row == [row[0]] + row[1..];
    }
  }

  lemma ApartFromTheFirst(row: seq<Server>, s: Server)
    requires row != [] && s in row[1..]
    requires forall i, j :: 0 <= i < j < |row| ==> Own(row[i]) !! Own(row[j])
    ensures Own(row[0]) !! Own(s) && s in row && s != row[0]
  {
    var i :| 0 <= i < |row| - 1 && row[1..][i] == s;
    assert row[i + 1] == s && s in Own(s);
  }

  lemma SeparateBehind(row: seq<Server>)
    requires Separate(row) && row != []
    ensures Separate(row[1..]) && Own(row[0]) !! Objects(row[1..])
    ensures row[0].table.Valid() && row[0] !in row[0].table.Repr
    ensures forall s :: s in row[1..] ==> s in Objects(row[1..]) && s in row && s != row[0]
  {
    hide Table.Valid, Objects, Own;
    var behind := row[1..];
    InObjects(behind);
    assert forall i :: 0 <= i < |behind| ==> behind[i] == row[i + 1];
    forall s | s in behind ensures Own(row[0]) !! Own(s) && s in row && s != row[0] {
      ApartFromTheFirst(row, s);
    }
  }

  /** Servers whose tables are in order and whose links connect them in a row come to have that row on
      record. */
  ghost method Record(row: seq<Server>)
    requires row != [] && Separate(row) && Connected(row)
    modifies row
    ensures Connected(row) && row[0].Valid() && row[0].Repr == Objects(row) && row[0].row == row
    decreases |row|
  {
    hide Table.Valid, Server.Valid, Connected, Separate;
    var server, behind := row[0], row[1..];
    SeparateBehind(row);
    ConnectedBehind(row);
    assert row == [server] + behind;
    if behind != [] {
      Record(behind);
      assert server.next == behind[0] && behind[0] in row;
    }
    assert server.table.Valid();
    server.Repr := {server, server.table};
    server.TakeNote();
    ConnectedBehind(row);
  }

  /** Sorting any listing of the ids of a chain gives the chain. */
  lemma SortedListingIsTheChain(sorted: seq<Key>, chain: seq<Key>)
    requires IsChain(chain) && Ascending(sorted) && multiset(sorted) == multiset(chain)
    ensures sorted == chain
  {
    forall i, j | 0 <= i <= j < |chain| ensures AtMost(chain[i], chain[j]) {
      AtMostReflexive(chain[i]);
      assert i < j ==> Less(chain[i], chain[j]);
    }
    AscendingUnique(sorted, chain);
  }

  lemma SameMembers(listing: seq<Key>, chain: seq<Key>)
    requires multiset(listing) == multiset(chain)
    ensures |listing| == |chain| && forall x :: x in listing <==> x in chain
  {
    assert |multiset(listing)| == |listing| && |multiset(chain)| == |chain|;
    assert forall x :: x in listing <==> x in multiset(listing);
    assert forall x :: x in chain <==> x in multiset(chain);
  }

  /** One server's watch, with its own listing of the ids */
  method Connect(server: Server, listing: seq<Key>, directory: map<Key, Server>, ghost chain: seq<Key>)
    requires Listed(chain, directory) && multiset(listing) == multiset(chain)
    modifies server`next
    ensures server.next == Successor(directory, chain, server.id)
  {
    hide Successor, IsChain, Ascending;
    SameMembers(listing, chain);
    var children := new Key[|listing|](i requires 0 <= i < |listing| => listing[i]);
    assert children[..] == listing;
    server.SelectNextServer(children, directory);
    SortedListingIsTheChain(children[..], chain);
  }

  /** The watches of the servers of a chain, in any order and any number of times, each with its own
      listing of the ids: afterwards the head has the whole chain behind it. */
  method ConnectTheChain(row: seq<Server>, turns: seq<nat>, listings: seq<seq<Key>>, directory: map<Key, Server>,
                         ghost chain: seq<Key>)
    requires Listed(chain, directory) && row == RowOf(chain, directory) && Separate(row)
    requires |listings| == |turns| && forall k :: 0 <= k < |turns| ==> turns[k] < |row|
    requires forall i :: 0 <= i < |row| ==> i in turns
    requires forall k :: 0 <= k < |listings| ==> multiset(listings[k]) == multiset(chain)
    modifies row
    ensures Linked(chain, directory)
    ensures row[0].Valid() && row[0].row == row
  {
    hide Server.Valid, Table.Valid, Successor, IsChain, Ascending;
    var k := 0;
    while k < |turns|
      invariant 0 <= k <= |turns| && Separate(row)
      invariant forall t :: 0 <= t < k ==>
                  row[turns[t]].next == Successor(directory, chain, chain[turns[t]])
    {
      var server := row[turns[k]];
      assert chain[turns[k]] in chain;
      Connect(server, listings[k], directory, chain);
      k := k + 1;
    }
    forall x | x in chain ensures directory[x].next == Successor(directory, chain, x) {
      var i :| 0 <= i < |chain| && chain[i] == x;
      assert i in turns;
      var t :| 0 <= t < |turns| && turns[t] == i;
    }
    LinkedMeansConnected(chain, directory);
    Record(row);
    LinkedMeansConnected(chain, directory);
  }

  // ---------- The client ----------

  /** `select_head_and_tail_servers`: whatever the order of the client's listing, its head and its tail are
      the ends of the chain that the servers form. */
  method SelectServers(children: array<Key>, directory: map<Key, Server>, ghost chain: seq<Key>)
    returns (head: Server, tail: Server)
    requires Listed(chain, directory) && multiset(children[..]) == multiset(chain)
    modifies children
    ensures head == directory[chain[0]] && tail == directory[chain[|chain| - 1]]
  {
    hide Ascending;
    SameMembers(children[..], chain);
    var ends := SelectHeadAndTail(children);
    SortedListingIsTheChain(children[..], chain);
    head, tail := directory[ends.value.0], directory[ends.value.1];
  }

  /** The reply to a get, for a key that the server finds with a value or not. */
  function GetReply(key: Key, found: Option<Value>): Content {
    var request := Plain(OP_GET, CT_KEY, Some(key));
    match found
    case None => ErrorReply(request)
    case Some(v) => request.(opcode := OP_GET + 1, cType := CT_VALUE, value := v)
  }

  /** What a get returns: what the server finds, if request and reply fit a frame. */
  function GetResult(pack: Packing, key: Key, found: Option<Value>): Reply<Option<Value>> {
    if Carried(pack(Plain(OP_GET, CT_KEY, Some(key)))) && Carried(pack(GetReply(key, found)))
    then Answered(found)
    else NoReply
  }

  /** A get at the tail. */
  method ExecuteGet(tail: Server, key: Key, pack: Packing) returns (value: Reply<Option<Value>>)
    requires tail.table.Valid() && (tail.table.M != map[] ==> Hashable(key, tail.table.rows))
    ensures value == GetResult(pack, key, Lookup(tail.table.M, key))
  {
    hide Table.Valid;
    value := RtableGet(tail, key, pack);
  }

  function Lookup(m: Store, key: Key): Option<Value> {
    if key in m then Some(m[key]) else None
  }

  /** An update reaches the last replica exactly if every replica accepts it. */
  lemma {:induction false} LastAfter(stores: seq<Store>, u: Update)
    requires stores != []
    ensures var n := |stores|;
            Propagate(stores, u)[n - 1] ==
            if forall i :: 0 <= i < n ==> Accepted(stores[i], u) then Apply(stores[n - 1], u) else stores[n - 1]
  {
    if i :| 0 <= i < |stores| && !Accepted(stores[i], u) {
      FirstRefusal(stores, u, i);
    } else {
      PropagateReachesAPrefix(stores, u, |stores|);
    }
  }

  lemma {:induction false} FirstRefusal(stores: seq<Store>, u: Update, i: nat)
    requires i < |stores| && !Accepted(stores[i], u)
    ensures Propagate(stores, u)[|stores| - 1] == stores[|stores| - 1]
  {
    if i > 0 {
      FirstRefusal(stores[1..], u, i - 1);
    }
  }

  /** What the client's end of the chain knows of the tables along it. */
  lemma HeadKnowsTheChain(chain: seq<Key>, directory: map<Key, Server>)
    requires Linked(chain, directory) && directory[chain[0]].Valid()
    ensures var head, n := directory[chain[0]], |chain|;
            && |head.stores| == n
            && directory[chain[n - 1]].table.Valid() && head.stores[n - 1] == directory[chain[n - 1]].table.M
            && (forall i :: 0 <= i < n ==> head.stores[i] == directory[chain[i]].table.M)
            && head.row == RowOf(chain, directory)
  {
    hide Server.Valid, Table.Valid, Successor, IsChain;
    LinksLeadThroughTheChain(chain, directory);
    var head := directory[chain[0]];
    RecordIsRight(head);
    assert forall i :: 0 <= i < |chain| ==> head.row[i] == directory[chain[i]];
  }

  ghost predicate AllHold(chain: seq<Key>, directory: map<Key, Server>, key: Key)
    requires Listed(chain, directory)
    reads set x | x in chain :: directory[x].table
  {
    forall x :: x in chain ==> key in directory[x].table.M
  }

  lemma HeldEverywhere(chain: seq<Key>, directory: map<Key, Server>, key: Key)
    requires Linked(chain, directory) && directory[chain[0]].Valid()
    ensures var stores := directory[chain[0]].stores;
            AllHold(chain, directory, key) <==>
            (forall i :: 0 <= i < |stores| ==> Accepted(stores[i], Del(key)))
  {
    hide Server.Valid, Table.Valid, Successor, IsChain;
    HeadKnowsTheChain(chain, directory);
    var stores := directory[chain[0]].stores;
    if forall i :: 0 <= i < |stores| ==> Accepted(stores[i], Del(key)) {
      forall x | x in chain ensures key in directory[x].table.M {
        var i :| 0 <= i < |chain| && chain[i] == x;
        assert Accepted(stores[i], Del(key));
      }
    }
  }

  lemma FitsEach(row: seq<Server>, key: Key, i: nat)
    requires Fits(row, key) && i < |row|
    ensures row[i].table.rows > 0 && Hashable(key, row[i].table.rows)
  {
    assert row[i] in row;
  }

  /** A put at the client's head followed by a get at its tail. If the request fits a frame, the put is answered
      and every replica has it, however many servers there are and whatever the sizes of their tables; the
      tail then finds the new value, or what it held before if the put was refused for want of a value. If the
      request does not fit, nothing changes, and the client stops. */
  method PutThenGet(children: array<Key>, directory: map<Key, Server>, entry: Entry, pack: Packing,
                    ghost chain: seq<Key>)
    returns (result: Reply<int>, value: Reply<Option<Value>>)
    requires Linked(chain, directory) && directory[chain[0]].Valid() && FixedCodes(pack)
    requires multiset(children[..]) == multiset(chain) && children !in directory[chain[0]].Repr
    requires Fits(RowOf(chain, directory), entry.key)
    modifies directory[chain[0]].Repr, children
    ensures Linked(chain, directory) && directory[chain[0]].Valid()
    ensures var u, before := Put(entry.key, entry.value), old(directory[chain[0]].stores);
            if Carried(pack(UpdateRequest(u))) then
              && directory[chain[0]].stores == Propagate(before, u)
              && result == Answered(if entry.value != [] then 0 else -1)
              && value == GetResult(pack, entry.key,
                            if entry.value != [] then Some(entry.value)
                            else Lookup(old(directory[chain[|chain| - 1]].table.M), entry.key))
            else
              directory[chain[0]].stores == before && result == NoReply && value == NoReply
  {
    hide GetResult, Server.Valid, Table.Valid, Propagate, Fits, IsChain, Successor, FixedCodes, Carried, UpdateRequest;
    LinksLeadThroughTheChain(chain, directory);
    var head, tail := SelectServers(children, directory, chain);
    HeadKnowsTheChain(chain, directory);
    ghost var before := head.stores;
    result := RtablePut(head, entry, pack);
    LinksLeadThroughTheChain(chain, directory);
    value := NoReply;
    if result != NoReply {
      HeadKnowsTheChain(chain, directory);
      LastAfter(before, Put(entry.key, entry.value));
      FitsEach(head.row, entry.key, |chain| - 1);
      value := ExecuteGet(tail, entry.key, pack);
      if !ValueOk(entry.value) {
        assert before[|chain| - 1] == old(directory[chain[|chain| - 1]].table.M);
        assert !Accepted(before[0], Put(entry.key, entry.value));
      }
    }
  }

  /** A deletion at the client's head followed by a get at its tail. If the request fits a frame, the head's
      answer tells whether the head held the key, and the tail still finds it exactly if the tail held it and
      some server did not. */
  method DelThenGet(children: array<Key>, directory: map<Key, Server>, key: Key, pack: Packing,
                    ghost chain: seq<Key>)
    returns (result: Reply<int>, value: Reply<Option<Value>>)
    requires Linked(chain, directory) && directory[chain[0]].Valid() && FixedCodes(pack)
    requires multiset(children[..]) == multiset(chain) && children !in directory[chain[0]].Repr
    requires Fits(RowOf(chain, directory), key)
    modifies directory[chain[0]].Repr, children
    ensures Linked(chain, directory) && directory[chain[0]].Valid()
    ensures var before := old(directory[chain[0]].stores);
            var everywhere := old(AllHold(chain, directory, key));
            if Carried(pack(UpdateRequest(Del(key)))) then
              && directory[chain[0]].stores == Propagate(before, Del(key))
              && result == Answered(if key in old(directory[chain[0]].table.M) then 0 else -1)
              && value == GetResult(pack, key,
                            if everywhere then None else Lookup(old(directory[chain[|chain| - 1]].table.M), key))
            else
              directory[chain[0]].stores == before && result == NoReply && value == NoReply
  {
    hide AllHold, Accepted, GetResult, Server.Valid, Table.Valid, Propagate, Fits, IsChain, Successor;
    hide FixedCodes, Carried, UpdateRequest;
    LinksLeadThroughTheChain(chain, directory);
    var head, tail := SelectServers(children, directory, chain);
    HeadKnowsTheChain(chain, directory);
    HeldEverywhere(chain, directory, key);
    ghost var before := head.stores;
    result := RtableDel(head, key, pack);
    LinksLeadThroughTheChain(chain, directory);
    value := NoReply;
    if result != NoReply {
      HeadKnowsTheChain(chain, directory);
      LastAfter(before, Del(key));
      FitsEach(head.row, key, |chain| - 1);
      value := ExecuteGet(tail, key, pack);
    }
  }
}
