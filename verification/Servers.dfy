/** The server skeleton with its forwarding loops, and the client stub that talks to it.
    A connection is modelled as a reference to the server at its other end, and a request as an
    atomic call on a copy of the message; requests that read travel in frames, which can be lost. */
module Servers {
  import opened CString
  import opened EntrySeq
  import opened Buckets
  import opened Framing
  import opened Lists
  import opened Tables
  import opened Sorting
  import opened Topology
  import opened Updates

  const OP_PUT := 10
  const OP_GET := 20
  const OP_DEL := 30
  const OP_SIZE := 40
  const OP_GETKEYS := 50
  const OP_GETTABLE := 60
  const OP_STATS := 70
  const OP_ERROR := 99

  datatype CType = CT_NONE | CT_ENTRY | CT_KEY | CT_VALUE | CT_RESULT | CT_KEYS | CT_TABLE | CT_STATS

  const MAX_RETRIES := 10

  /** Everything a message says. */
  datatype Content = Content(
    opcode: int, cType: CType, entry: Option<Entry>, key: Option<Key>,
    value: Value, result: int, keys: seq<Key>, entries: seq<Entry>)

  /** The bytes a message is packed into. */
  type Packing = Content -> seq<Byte>

  /** What a caller gets for a request: an answer, or no message at all, in which case the program goes on
      to read a message through a null pointer. */
  datatype Reply<+T> = NoReply | Answered(value: T)

  function ErrorReply(request: Content): Content {
    request.(opcode := OP_ERROR, cType := CT_NONE)
  }

  /** The reply to a request that is no update, from a server with the given map and rows. */
  function Answer(request: Content, m: Store, rows: Rows): Content {
    if request.opcode == OP_GET && request.key.Some? && request.key.value in m then
      request.(opcode := OP_GET + 1, cType := CT_VALUE, value := m[request.key.value])
    else if request.opcode == OP_SIZE then
      request.(opcode := OP_SIZE + 1, cType := CT_RESULT, result := |m|)
    else if request.opcode == OP_GETKEYS && m != map[] then
      request.(opcode := OP_GETKEYS + 1, cType := CT_KEYS, keys := Keys(Flatten(rows)))
    else if request.opcode == OP_GETTABLE && m != map[] then
      request.(opcode := OP_GETTABLE + 1, cType := CT_TABLE, entries := Flatten(rows))
    else if request.opcode == OP_STATS then
      request.(opcode := OP_STATS + 1, cType := CT_STATS)
    else
      ErrorReply(request)
  }

  lemma MalformedUpdate(request: Content, m: Store, rows: Rows)
    ensures request.opcode == OP_PUT || request.opcode == OP_DEL ==> Answer(request, m, rows) == ErrorReply(request)
  {
  }

  /** The reply to each operation, by the codes on the wire: 20 GET, 40 SIZE, 50 GETKEYS, 60 GETTABLE, 70 STATS.
      Success is the next code, with the type of what is answered; everything else is 99 with nothing. */
  lemma ReplyCodes(request: Content, m: Store, rows: Rows)
    ensures var r := Answer(request, m, rows);
            match request.opcode
            case 20 =>
              if request.key.Some? && request.key.value in m
              then r.opcode == 21 && r.cType == CT_VALUE && r.value == m[request.key.value]
              else r.opcode == 99 && r.cType == CT_NONE
            case 40 => r.opcode == 41 && r.cType == CT_RESULT && r.result == |m|
            case 50 =>
              if m != map[] then r.opcode == 51 && r.cType == CT_KEYS && r.keys == Keys(Flatten(rows))
              else r.opcode == 99 && r.cType == CT_NONE
            case 60 =>
              if m != map[] then r.opcode == 61 && r.cType == CT_TABLE && r.entries == Flatten(rows)
              else r.opcode == 99 && r.cType == CT_NONE
            case 70 => r.opcode == 71 && r.cType == CT_STATS
            case _ => r.opcode == 99 && r.cType == CT_NONE
    ensures var r := Answer(request, m, rows);
            r.opcode == 99 || r.opcode == request.opcode + 1
  {
    hide Flatten, Keys;
  }

  /** A request as the stub makes it. */
  function Plain(opcode: int, cType: CType, key: Option<Key>): Content {
    Content(opcode, cType, None, key, [], 0, [], [])
  }

  /** A PUT or DEL request as the stub makes it. */
  function UpdateRequest(u: Update): Content {
    match u
    case Put(k, v) => Content(OP_PUT, CT_ENTRY, Some(Entry(k, v)), None, [], 0, [], [])
    case Del(k) => Plain(OP_DEL, CT_KEY, Some(k))
  }

  /** The reply to a PUT or DEL, which still carries the entry or key. */
  function UpdateReply(request: Content, accepted: bool): Content {
    if accepted then request.(opcode := request.opcode + 1, cType := CT_NONE) else ErrorReply(request)
  }

  /** A PUT goes out as 10 with the entry and a DEL as 30 with the key; 11 or 31 with no content answers it if it
      is accepted, and 99 if not. */
  lemma UpdateCodes(u: Update, accepted: bool)
    ensures var request, reply := UpdateRequest(u), UpdateReply(UpdateRequest(u), accepted);
            && (match u
                case Put(k, v) =>
                  && request.opcode == 10 && request.cType == CT_ENTRY && request.entry == Some(Entry(k, v))
                  && reply.opcode == (if accepted then 11 else 99)
                case Del(k) =>
                  && request.opcode == 30 && request.cType == CT_KEY && request.key == Some(k)
                  && reply.opcode == (if accepted then 31 else 99))
            && reply.cType == CT_NONE && reply.result == 0
            && reply.entry == request.entry && reply.key == request.key
  {
  }

  /** Operation codes and content types take one byte whatever they are. */
  ghost predicate FixedCodes(pack: Packing) {
    forall c: Content, opcode: int, cType: CType {:trigger pack(c.(opcode := opcode, cType := cType))} ::
      0 < c.opcode < 0x80 && 0 < opcode < 0x80 ==> |pack(c.(opcode := opcode, cType := cType))| == |pack(c)|
  }

  /** One byte each for the operation code and the content type, then all keys and values. */
  function PlainPacking(c: Content): (bytes: seq<Byte>)
    ensures |bytes| >= 2 + EntryBytes(c.entries)
  {
    [1, 1] + (if c.entry.Some? then EntryText([c.entry.value]) else []) +
    (if c.key.Some? then Bytes(c.key.value) else []) + c.value + EntryText(c.entries)
  }

  function Bytes(key: Key): (bytes: seq<Byte>)
    ensures |bytes| == |key|
  {
    seq(|key|, i requires 0 <= i < |key| => key[i])
  }

  function EntryText(s: seq<Entry>): (bytes: seq<Byte>)
    ensures |bytes| == EntryBytes(s)
  {
    if s == [] then [] else EntryText(s[..|s| - 1]) + Bytes(s[|s| - 1].key) + s[|s| - 1].value
  }

  /** There are such packings. */
  lemma PlainPackingServes()
    ensures FixedCodes(PlainPacking) && Covers(PlainPacking)
  {
    hide EntryText, EntryBytes;
  }

  /** When the request for an update fits a frame, its reply does too. */
  lemma ReplyFits(pack: Packing, u: Update, accepted: bool)
    requires FixedCodes(pack)
    ensures Carried(pack(UpdateReply(UpdateRequest(u), accepted))) <==> Carried(pack(UpdateRequest(u)))
  {
    var c := UpdateRequest(u);
    var opcode := if accepted then c.opcode + 1 else OP_ERROR;
    assert UpdateReply(c, accepted) == c.(opcode := opcode, cType := CT_NONE);
    assert |pack(c.(opcode := opcode, cType := CT_NONE))| == |pack(c)|;
  }

  /** Request and reply of a read both fit a frame. */
  predicate Arrives(pack: Packing, request: Content, m: Store, rows: Rows) {
    Carried(pack(request)) && Carried(pack(Answer(request, m, rows)))
  }

  class Message {
    var opcode: int
    var cType: CType
    var entry: Option<Entry>
    var key: Option<Key>
    var value: Value
    var result: int
    var keys: seq<Key>
    var entries: seq<Entry>

    /** `message_t__init`, with the opcode and the content type set */
    constructor (opcode: int, cType: CType)
      ensures this.opcode == opcode && this.cType == cType
      ensures entry == None && key == None && value == [] && result == 0 && keys == [] && entries == []
    {
      this.opcode, this.cType := opcode, cType;
      entry, key, value, result, keys, entries := None, None, [], 0, [], [];
    }

    /** What arrives after a message has been packed, sent and unpacked. */
    constructor Received(m: Message)
      ensures opcode == m.opcode && cType == m.cType && entry == m.entry && key == m.key
      ensures value == m.value && result == m.result && keys == m.keys && entries == m.entries
      ensures Says() == m.Says()
    {
      opcode, cType, entry, key := m.opcode, m.cType, m.entry, m.key;
      value, result, keys, entries := m.value, m.result, m.keys, m.entries;
    }

    /** The update a well-formed PUT or DEL request asks for. */
    ghost function Request(): Option<Update>
      reads this
    {
      if opcode == OP_PUT && entry.Some? then Some(Put(entry.value.key, entry.value.value))
      else if opcode == OP_DEL && key.Some? then Some(Del(key.value))
      else None
    }

    function Says(): Content
      reads this
    {
      Content(opcode, cType, entry, key, value, result, keys, entries)
    }

    method SetError()
      modifies this
      ensures Says() == ErrorReply(old(Says())) == UpdateReply(old(Says()), false)
    {
      opcode := OP_ERROR;
      cType := CT_NONE;
    }

    method SetDone()
      modifies this
      ensures Says() == UpdateReply(old(Says()), true)
    {
      opcode := opcode + 1;
      cType := CT_NONE;
    }
  }

  /** A key that hashes into the table of every server of a row. */
  predicate Fits(row: seq<Server>, key: Key) {
    forall s :: s in row ==> s.table.rows > 0 && Hashable(key, s.table.rows)
  }

  /** The server that the least id of the children above `self` leads to. */
  ghost function Successor(directory: map<Key, Server>, children: seq<Key>, self: Key): Server? {
    match NextId(children, self)
    case None => null
    case Some(y) => if y in directory then directory[y] else null
  }

  lemma FitsAlong(server: Server, behind: seq<Server>, key: Key)
    ensures Fits([server] + behind, key) <==>
            server.table.rows > 0 && Hashable(key, server.table.rows) && Fits(behind, key)
  {
    assert server in [server] + behind && forall s :: s in behind ==> s in [server] + behind;
  }

  class Server {
    const id: Key
    const table: Table
    var next: Server?

    /** The servers from this one to the last one reached by `next`, and their replicas. */
    ghost var row: seq<Server>
    ghost var stores: seq<Store>
    ghost var Repr: set<object>

    ghost predicate Valid()
      reads this, Repr
      ensures Valid() ==> this in Repr
      decreases Repr
    {
      && this in Repr && table in Repr && table.Repr <= Repr && this !in table.Repr
      && table.Valid()
      && (next != null ==>
            && next in Repr && next.Repr <= Repr && this !in next.Repr && table.Repr !! next.Repr
            && next.Valid())
      && row == [this] + Behind() && stores == [table.M] + StoresBehind()
    }

    constructor (id: Key, table: Table)
      requires table.Valid()
      ensures Valid() && fresh(Repr - table.Repr)
      ensures this.id == id && this.table == table && next == null
    {
      hide Table.Valid;
      this.id, this.table, next := id, table, null;
      row, stores := [this], [table.M];
      Repr := {this} + table.Repr;
    }

    /** The row of servers behind this one. */
    ghost function Behind(): seq<Server>
      reads this, next
    {
      if next == null then [] else next.row
    }

    ghost function StoresBehind(): seq<Store>
      reads this, next
    {
      if next == null then [] else next.stores
    }

    // ---------- Reconfiguration ----------

    /** A server whose table can be merged into this server's. */
    ghost predicate CanMerge(s: Server)
      reads s.table, s.table.Repr, table
    {
      && s.table.Valid() && s.table.Repr !! table.Repr
      && forall q :: q in s.table.M ==> table.rows > 0 && Hashable(q, table.rows)
    }

    /** `select_next_server`: connect to the child with the least id above this server's, if there is one.
        `directory` stands for the address of each child and the connection to it. */
    method SelectNextServer(children: array<Key>, directory: map<Key, Server>)
      requires forall k :: k in children[..] ==> k in directory
      modifies `next, children
      ensures Ascending(children[..]) && multiset(children[..]) == multiset(old(children[..]))
      ensures next == Successor(directory, children[..], id)
    {
      hide NextId, Less;
      var y := SelectNextId(children, id);
      if y == None {
        next := null;
      } else {
        NextIdIsAbove(children[..], id);
        assert y.value in multiset(children[..]);
        next := directory[y.value];
      }
    }

    /** `select_prev_server`: merge the whole table of the child with the greatest id below this server's.
        The server does not survive when that table's reply is lost. */
    method SelectPrevServer(children: array<Key>, directory: map<Key, Server>, pack: Packing)
      returns (survived: bool)
      requires table.Valid()
      requires forall k :: k in children[..] ==> k in directory
      requires forall k {:trigger directory[k]} :: k in directory && Less(k, id) ==> CanMerge(directory[k])
      requires children !in table.Repr && forall k :: k in directory ==> children !in directory[k].table.Repr
      modifies table.Repr, children
      ensures Ascending(children[..]) && multiset(children[..]) == multiset(old(children[..]))
      ensures table.Valid() && fresh(table.Repr - old(table.Repr))
      ensures match PrevId(children[..], id)
              case None => survived && table.M == old(table.M)
              case Some(y) =>
                && y in directory
                && survived == old(TableArrives(pack, directory[y].table))
                && table.M == if survived then old(table.M) + old(directory[y].table.M) else old(table.M)
    {
      hide Table.Valid, PrevId, Less, Arrives;
      var y := SelectPrevId(children, id);
      survived := true;
      if y.Some? {
        PrevIdIsBelow(children[..], id);
        assert y.value in multiset(children[..]);
        survived := MergeFrom(directory[y.value], pack);
      }
    }

    /** Put every entry of another server's table into the local one, if the reply arrives. */
    method MergeFrom(prev: Server, pack: Packing) returns (merged: bool)
      requires table.Valid() && prev.table.Valid() && prev.table.Repr !! table.Repr
      requires forall q :: q in prev.table.M ==> Hashable(q, table.rows)
      modifies table.Repr
      ensures table.Valid() && fresh(table.Repr - old(table.Repr))
      ensures merged == TableArrives(pack, prev.table)
      ensures table.M == if merged then old(table.M) + prev.table.M else old(table.M)
    {
      hide Flatten, Represents, Arrives;
      var reply := RtableGetTable(prev, pack);
      if reply == NoReply {
        return false;
      }
      var entries := reply.value;
      if entries.Some? {
        ghost var b, source := prev.table.buckets, prev.table.M;
        var i := 0;
        while i < |entries.value|
          invariant 0 <= i <= |entries.value|
          invariant table.Valid() && fresh(table.Repr - old(table.Repr))
          invariant table.M == PutAll(old(table.M), entries.value[..i])
        {
          EnumeratedEntry(b, source, i);
          var entry := entries.value[i];
          var result := table.Put(entry.key, entry.value);
          assert entries.value[..i + 1][..i] == entries.value[..i];
          i := i + 1;
        }
        assert entries.value[..i] == Flatten(b);
        TransferIsExact(b, source, old(table.M));
      }
      return true;
    }

    // ---------- invoke ----------

    /** `invoke`: execute a request and turn the message into its reply. The request for an update has come
        in a frame, so that the one for the next server fits a frame too. */
    method Invoke(msg: Message, pack: Packing)
      requires Valid() && msg !in Repr && FixedCodes(pack)
      requires msg.Request().Some? ==>
                 Fits(row, msg.Request().value.key) && Carried(pack(UpdateRequest(msg.Request().value)))
      requires msg.opcode == OP_GET && msg.key.Some? && table.M != map[] ==> Hashable(msg.key.value, table.rows)
      modifies msg, Repr
      ensures Valid() && fresh(Repr - old(Repr)) && row == old(row)
      ensures old(msg.opcode) != OP_PUT ==> Repr == old(Repr)
      ensures old(msg.Request()) == None ==>
                && stores == old(stores) && table.buckets == old(table.buckets)
                && msg.Says() == Answer(old(msg.Says()), table.M, table.buckets)
      ensures old(msg.Request()).Some? ==>
                var u := old(msg.Request()).value;
                && stores == Propagate(old(stores), u)
                && msg.Says() == UpdateReply(old(msg.Says()), Accepted(old(table.M), u))
      decreases Repr, 2
    {
      hide Table.Valid, Fits, Propagate, Answer, ErrorReply, UpdateReply, UpdateRequest, FixedCodes, Carried;
      MalformedUpdate(msg.Says(), table.M, table.buckets);
      if msg.opcode == OP_PUT {
        InvokePut(msg, pack);
      } else if msg.opcode == OP_DEL {
        InvokeDel(msg, pack);
      } else {
        InvokeQuery(msg);
      }
    }

    /** PUT: apply locally, then pass the entry down the chain. An entry without value bytes, which has
        no data pointer either, is refused by `Table.Put`. */
    method InvokePut(msg: Message, pack: Packing)
      requires Valid() && msg !in Repr && FixedCodes(pack)
      requires msg.opcode == OP_PUT
      requires msg.entry.Some? ==>
                 var entry := msg.entry.value;
                 Fits(row, entry.key) && Carried(pack(UpdateRequest(Put(entry.key, entry.value))))
      modifies msg, Repr
      ensures Valid() && fresh(Repr - old(Repr)) && row == old(row)
      ensures old(msg.entry) == None ==>
                && stores == old(stores) && table.M == old(table.M) && table.buckets == old(table.buckets)
                && msg.Says() == ErrorReply(old(msg.Says()))
      ensures old(msg.entry).Some? ==>
                var u := Put(old(msg.entry).value.key, old(msg.entry).value.value);
                && stores == Propagate(old(stores), u)
                && msg.Says() == UpdateReply(old(msg.Says()), Accepted(old(table.M), u))
      decreases Repr, 1
    {
      hide Table.Valid, Fits, Propagate, ErrorReply, UpdateReply, UpdateRequest, FixedCodes, Carried, Message.Says;
      if msg.entry == None {
        msg.SetError();
        return;
      }
      var entry := msg.entry.value;
      FitsAlong(this, Behind(), entry.key);
      PropagateStep(table.M, StoresBehind(), Put(entry.key, entry.value));
      var result := table.Put(entry.key, entry.value);
      if result == -1 {
        TakeNote();
        msg.SetError();
        return;
      }
      var putResult, retries := ForwardPut(entry, pack);
      TakeNote();
      msg.SetDone();
    }

    /** DEL: remove locally, then pass the key down the chain. */
    method InvokeDel(msg: Message, pack: Packing)
      requires Valid() && msg !in Repr && FixedCodes(pack)
      requires msg.opcode == OP_DEL
      requires msg.key.Some? ==> Fits(row, msg.key.value) && Carried(pack(UpdateRequest(Del(msg.key.value))))
      modifies msg, Repr
      ensures Valid() && Repr == old(Repr) && row == old(row)
      ensures old(msg.key) == None ==>
                && stores == old(stores) && table.M == old(table.M) && table.buckets == old(table.buckets)
                && msg.Says() == ErrorReply(old(msg.Says()))
      ensures old(msg.key).Some? ==>
                var u := Del(old(msg.key).value);
                && stores == Propagate(old(stores), u)
                && msg.Says() == UpdateReply(old(msg.Says()), Accepted(old(table.M), u))
      decreases Repr, 1
    {
      hide Table.Valid, Fits, Propagate, ErrorReply, UpdateReply, UpdateRequest, FixedCodes, Carried, Message.Says;
      if msg.key == None {
        msg.SetError();
        return;
      }
      var key := msg.key.value;
      FitsAlong(this, Behind(), key);
      PropagateStep(table.M, StoresBehind(), Del(key));
      var result := table.Remove(key);
      if result == -1 || result == 1 {
        assert table.M == old(table.M);
        TakeNote();
        msg.SetError();
        return;
      }
      var delResult, retries := ForwardDel(key, pack);
      TakeNote();
      msg.SetDone();
    }

    /** Bring the ghost record up to date with the table and with the server behind. */
    ghost method TakeNote()
      requires this in Repr && table in Repr && this !in table.Repr && table.Valid()
      requires next != null ==>
                 && next.Valid() && this !in next.Repr && table.Repr !! next.Repr
      modifies this
      ensures Valid() && Repr == old(Repr) + table.Repr + (if next == null then {} else next.Repr)
      ensures next == old(next)
      ensures row == [this] + Behind() && stores == [table.M] + StoresBehind()
    {
      hide Table.Valid;
      Repr := Repr + table.Repr + (if next == null then {} else next.Repr);
      row := [this] + Behind();
      stores := [table.M] + StoresBehind();
    }

    /** GET, SIZE, GETKEYS, GETTABLE and STATS: answered from the local table, which stays as it is. */
    method InvokeQuery(msg: Message)
      requires table.Valid() && msg !in table.Repr
      requires msg.opcode != OP_PUT && msg.opcode != OP_DEL
      requires msg.opcode == OP_GET && msg.key.Some? && table.M != map[] ==> Hashable(msg.key.value, table.rows)
      modifies msg
      ensures table.Valid() && table.M == old(table.M) && table.buckets == old(table.buckets)
      ensures msg.Says() == Answer(old(msg.Says()), table.M, table.buckets)
    {
      hide Table.Valid, Flatten, Keys;
      if msg.opcode == OP_GET {
        InvokeGet(msg);
      } else if msg.opcode == OP_SIZE {
        var size := table.Size();
        msg.opcode, msg.cType, msg.result := OP_SIZE + 1, CT_RESULT, size;
      } else if msg.opcode == OP_GETKEYS {
        InvokeGetKeys(msg);
      } else if msg.opcode == OP_GETTABLE {
        InvokeGetTable(msg);
      } else if msg.opcode == OP_STATS {
        msg.opcode, msg.cType := OP_STATS + 1, CT_STATS;
      } else {
        msg.SetError();
      }
    }

    method InvokeGet(msg: Message)
      requires table.Valid() && msg !in table.Repr && msg.opcode == OP_GET
      requires msg.key.Some? && table.M != map[] ==> Hashable(msg.key.value, table.rows)
      modifies msg
      ensures table.Valid() && table.M == old(table.M) && table.buckets == old(table.buckets)
      ensures msg.Says() == Answer(old(msg.Says()), table.M, table.buckets)
    {
      hide Table.Valid, Flatten, Keys;
      if msg.key == None {
        msg.SetError();
        return;
      }
      var data := table.Get(msg.key.value);
      if data == None {
        msg.SetError();
        return;
      }
      msg.opcode, msg.cType, msg.value := OP_GET + 1, CT_VALUE, data.value;
    }

    method InvokeGetKeys(msg: Message)
      requires table.Valid() && msg !in table.Repr && msg.opcode == OP_GETKEYS
      modifies msg
      ensures table.Valid() && table.M == old(table.M) && table.buckets == old(table.buckets)
      ensures msg.Says() == Answer(old(msg.Says()), table.M, table.buckets)
    {
      hide Table.Valid, Flatten, Keys;
      var keys := table.GetKeys();
      var count := table.Size();
      if keys == null || count == -1 {
        msg.SetError();
        return;
      }
      KeyCount(table);
      var listed := FirstKeys(keys, count, Keys(Flatten(table.buckets)));
      msg.opcode, msg.cType, msg.keys := OP_GETKEYS + 1, CT_KEYS, listed;
    }

    method InvokeGetTable(msg: Message)
      requires table.Valid() && msg !in table.Repr && msg.opcode == OP_GETTABLE
      modifies msg
      ensures table.Valid() && table.M == old(table.M) && table.buckets == old(table.buckets)
      ensures msg.Says() == Answer(old(msg.Says()), table.M, table.buckets)
    {
      hide Table.Valid, Flatten, Keys;
      var entries := table.GetAllEntries();
      if entries == None {
        msg.SetError();
        return;
      }
      msg.opcode, msg.cType, msg.entries := OP_GETTABLE + 1, CT_TABLE, entries.value;
    }

    /** The forwarding loop of DEL: one attempt when the next server holds the key, ten when it does not. */
    method ForwardDel(key: Key, pack: Packing) returns (delResult: int, retries: int)
      requires FixedCodes(pack) && Carried(pack(UpdateRequest(Del(key))))
      requires next != null ==> next.Valid() && this !in next.Repr && Fits(next.row, key)
      modifies if next == null then {} else next.Repr
      ensures next == old(next)
      ensures next != null ==>
                && next.Valid() && next.Repr == old(next.Repr)
                && next.row == old(next.row)
                && next.stores == Propagate(old(next.stores), Del(key))
                && (delResult, retries) == if key in old(next.table.M) then (0, 0) else (-1, 10)
      ensures next == null ==> (delResult, retries) == (-1, 0)
      decreases if next == null then {} else next.Repr, 10
    {
      hide Propagate, Fits, Server.Valid, FixedCodes, Carried, UpdateRequest;
      delResult, retries := -1, 0;
      if next != null {
        ghost var before := next.stores;
        FirstStore(next);
        while delResult == -1 && retries < MAX_RETRIES
          invariant next == old(next) && next.Valid() && this !in next.Repr && 0 <= retries <= MAX_RETRIES
          invariant next.Repr == old(next.Repr) && next.row == old(next.row)
          invariant delResult == -1 ==> next.stores == before && next.stores[0] == next.table.M
          invariant delResult == -1 && retries > 0 ==> key !in before[0] && Propagate(before, Del(key)) == before
          invariant delResult != -1 ==>
                      delResult == 0 && retries == 0 && key in before[0] && next.stores == Propagate(before, Del(key))
          decreases MAX_RETRIES - retries, -delResult
        {
          if key !in before[0] {
            RefusedAtOnce(before, Del(key));
          }
          var reply := RtableDel(next, key, pack);
          delResult := reply.value;
          FirstStore(next);
          if delResult == -1 {
            retries := retries + 1;
          }
        }
      }
    }

    /** The forwarding loop of PUT. */
    method ForwardPut(entry: Entry, pack: Packing) returns (putResult: int, retries: int)
      requires FixedCodes(pack) && Carried(pack(UpdateRequest(Put(entry.key, entry.value))))
      requires next != null ==> next.Valid() && this !in next.Repr && Fits(next.row, entry.key)
      requires ValueOk(entry.value)
      modifies if next == null then {} else next.Repr
      ensures next == old(next)
      ensures next != null ==>
        && next.Valid() && fresh(next.Repr - old(next.Repr))
        && next.row == old(next.row)
        && next.stores == Propagate(old(next.stores), Put(entry.key, entry.value))
      ensures retries == 0 && putResult == if next == null then -1 else 0
      decreases if next == null then {} else next.Repr, 10
    {
      hide Propagate, Fits, Server.Valid, FixedCodes, Carried, UpdateRequest;
      putResult, retries := -1, 0;
      if next != null {
        while putResult == -1 && retries < MAX_RETRIES
          invariant next == old(next) && next.Valid() && this !in next.Repr
          invariant fresh(next.Repr - old(next.Repr)) && next.row == old(next.row)
          invariant putResult == -1 ==> next.stores == old(next.stores) && next.Repr == old(next.Repr)
          invariant putResult == 0 ==> next.stores == Propagate(old(next.stores), Put(entry.key, entry.value))
          invariant retries == 0 && (putResult == -1 || putResult == 0)
          decreases -putResult
        {
          var reply := RtablePut(next, entry, pack);
          putResult := reply.value;
          if putResult == -1 {
            retries := retries + 1;
          }
        }
      }
    }
  }

  lemma KeyCount(table: Table)
    requires table.Valid()
    ensures |Keys(Flatten(table.buckets))| == |table.M|
  {
    FlattenIsTheMap(table.buckets, table.M);
  }

  /** The `n_keys` keys that a null-terminated array carries. */
  method FirstKeys(keys: array<Option<Key>>, count: int, ghost listed: seq<Key>) returns (r: seq<Key>)
    requires IsKeyArray(keys[..], listed) && count == |listed|
    ensures r == listed
  {
    r := [];
    for i := 0 to count
      invariant r == listed[..i] && keys[..] == old(keys[..])
    {
      assert keys[..][i] == keys[i] == Some(listed[i]);
      r := r + [keys[i].value];
    }
  }

  /** The first replica of a row is the table of its first server. */
  lemma FirstStore(server: Server)
    requires server.Valid()
    ensures |server.stores| > 0 && server.stores[0] == server.table.M
  {
  }

  // ---------- The stub ----------

  /** `network_send_receive` for an update: the far server works on its own copy of the message, unless the
      request does not fit a frame; then nothing arrives there and there is no response. */
  method NetworkSendReceive(server: Server, request: Message, ghost u: Update, pack: Packing)
    returns (response: Message?)
    requires server.Valid() && FixedCodes(pack)
    requires request.Request() == Some(u) && request.Says() == UpdateRequest(u) && Fits(server.row, u.key)
    modifies server.Repr
    ensures server.Valid() && fresh(server.Repr - old(server.Repr)) && server.row == old(server.row)
    ensures u.Del? ==> server.Repr == old(server.Repr)
    ensures response != null <==> Carried(pack(UpdateRequest(u)))
    ensures response == null ==> server.stores == old(server.stores) && server.Repr == old(server.Repr)
    ensures response != null ==>
              && fresh(response) && server.stores == Propagate(old(server.stores), u)
              && response.Says() == UpdateReply(UpdateRequest(u), Accepted(old(server.table.M), u))
    decreases server.Repr, 3
  {
    hide Propagate, Fits, Server.Valid, FixedCodes, UpdateReply, UpdateRequest, Frame, Receive;
    var sent := pack(request.Says());
    FrameArrives(sent);
    if Receive(Frame(sent)) != Some((sent, [])) {
      return null;
    }
    response := new Message.Received(request);
    server.Invoke(response, pack);
    var replied := pack(response.Says());
    ReplyFits(pack, u, Accepted(old(server.table.M), u));
    FrameArrives(replied);
    if Receive(Frame(replied)) != Some((replied, [])) {
      return null;
    }
  }

  /** `rtable_put`: without a response the caller reads one through a null pointer. */
  method RtablePut(server: Server, entry: Entry, pack: Packing) returns (result: Reply<int>)
    requires server.Valid() && FixedCodes(pack) && Fits(server.row, entry.key)
    modifies server.Repr
    ensures server.Valid() && fresh(server.Repr - old(server.Repr))
    ensures server.row == old(server.row)
    ensures var u := Put(entry.key, entry.value);
            if Carried(pack(UpdateRequest(u))) then
              && server.stores == Propagate(old(server.stores), u)
              && result == Answered(if entry.value != [] then 0 else -1)
            else
              server.stores == old(server.stores) && server.Repr == old(server.Repr) && result == NoReply
    decreases server.Repr, 4
  {
    hide Propagate, Fits, Server.Valid, FixedCodes, Carried;
    var request := new Message(OP_PUT, CT_ENTRY);
    request.entry := Some(entry);
    var response := NetworkSendReceive(server, request, Put(entry.key, entry.value), pack);
    if response == null {
      return NoReply;
    }
    assert response.Says().opcode == response.opcode;
    result := Answered(if response.opcode == OP_PUT + 1 then 0 else -1);
  }

  /** `rtable_del`: 0 exactly when the server held the key. */
  method RtableDel(server: Server, key: Key, pack: Packing) returns (result: Reply<int>)
    requires server.Valid() && FixedCodes(pack) && Fits(server.row, key)
    modifies server.Repr
    ensures server.Valid() && server.Repr == old(server.Repr)
    ensures server.row == old(server.row)
    ensures if Carried(pack(UpdateRequest(Del(key)))) then
              && server.stores == Propagate(old(server.stores), Del(key))
              && result == Answered(if key in old(server.table.M) then 0 else -1)
            else
              server.stores == old(server.stores) && result == NoReply
    decreases server.Repr, 4
  {
    hide Propagate, Fits, Server.Valid, FixedCodes, Carried;
    var request := new Message(OP_DEL, CT_KEY);
    request.key := Some(key);
    var response := NetworkSendReceive(server, request, Del(key), pack);
    if response == null {
      return NoReply;
    }
    assert response.Says().opcode == response.opcode && response.Says().result == response.result;
    result := Answered(if response.opcode != OP_ERROR then response.result else -1);
  }

  /** `network_send_receive` for a request that only reads. Request and reply each travel in a frame; when
      one of them does not arrive as it was packed, there is no response. */
  method NetworkQuery(server: Server, request: Message, pack: Packing) returns (response: Message?)
    requires server.table.Valid()
    requires request.opcode in {OP_GET, OP_SIZE, OP_GETKEYS, OP_GETTABLE}
    requires request.opcode == OP_GET && request.key.Some? && server.table.M != map[] ==>
               Hashable(request.key.value, server.table.rows)
    ensures var m, rows := server.table.M, server.table.buckets;
            && (response != null <==> Arrives(pack, request.Says(), m, rows))
            && (response != null ==> fresh(response) && response.Says() == Answer(request.Says(), m, rows))
  {
    hide Table.Valid, Flatten, Frame, Receive;
    var sent := pack(request.Says());
    FrameArrives(sent);
    if Receive(Frame(sent)) != Some((sent, [])) {
      return null;
    }
    response := new Message.Received(request);
    server.InvokeQuery(response);
    var replied := pack(response.Says());
    FrameArrives(replied);
    if Receive(Frame(replied)) != Some((replied, [])) {
      return null;
    }
  }

  lemma FrameArrives(packed: seq<Byte>)
    ensures Receive(Frame(packed)) == Some((packed, [])) <==> Carried(packed)
  {
    hide Receive, Frame;
    FrameRoundTripExactly(packed, []);
    assert Frame(packed) + [] == Frame(packed);
  }

  /** `rtable_get` answers like `table_get` on the server. */
  method RtableGet(server: Server, key: Key, pack: Packing) returns (value: Reply<Option<Value>>)
    requires server.table.Valid()
    requires server.table.M != map[] ==> Hashable(key, server.table.rows)
    ensures value == if !Arrives(pack, Plain(OP_GET, CT_KEY, Some(key)), server.table.M, server.table.buckets)
                     then NoReply
                     else Answered(if key in server.table.M then Some(server.table.M[key]) else None)
  {
    hide Table.Valid, Arrives;
    var request := new Message(OP_GET, CT_KEY);
    request.key := Some(key);
    var response := NetworkQuery(server, request, pack);
    if response == null {
      return NoReply;
    }
    if response.opcode != OP_GET + 1 {
      return Answered(None);
    }
    return Answered(Some(response.value));
  }

  /** `rtable_size` answers like `table_size` on the server. */
  method RtableSize(server: Server, pack: Packing) returns (size: Reply<int>)
    requires server.table.Valid()
    ensures size == if !Arrives(pack, Plain(OP_SIZE, CT_NONE, None), server.table.M, server.table.buckets)
                    then NoReply
                    else Answered(|server.table.M|)
  {
    hide Table.Valid, Arrives;
    var request := new Message(OP_SIZE, CT_NONE);
    var response := NetworkQuery(server, request, pack);
    if response == null {
      return NoReply;
    }
    return Answered(if response.opcode != OP_ERROR then response.result else -1);
  }

  /** `rtable_get_keys` answers like `table_get_keys` on the server. */
  method RtableGetKeys(server: Server, pack: Packing) returns (answered: bool, keys: array?<Option<Key>>)
    requires server.table.Valid()
    ensures answered == Arrives(pack, Plain(OP_GETKEYS, CT_NONE, None), server.table.M, server.table.buckets)
    ensures answered ==> (keys == null <==> server.table.M == map[])
    ensures keys != null ==> fresh(keys) && IsKeyArray(keys[..], Keys(Flatten(server.table.buckets)))
  {
    hide Table.Valid, Flatten, Keys, Arrives;
    var request := new Message(OP_GETKEYS, CT_NONE);
    var response := NetworkQuery(server, request, pack);
    if response == null {
      return false, null;
    }
    if response.opcode == OP_ERROR {
      return true, null;
    }
    answered := true;
    var n := |response.keys|;
    ghost var listed := response.keys;
    keys := new Option<Key>[n + 1](_ => None);
    for i := 0 to n
      invariant response.keys == listed
      invariant forall j :: 0 <= j < keys.Length ==> keys[j] == if j < i then Some(listed[j]) else None
    {
      keys[i] := Some(response.keys[i]);
    }
  }

  /** The reply that carries a whole table fits a frame, and so does the request for it. */
  ghost predicate TableArrives(pack: Packing, table: Table)
    reads table
  {
    Arrives(pack, Plain(OP_GETTABLE, CT_NONE, None), table.M, table.buckets)
  }

  /** `rtable_get_table`: none for an empty table, else the entries of the server. */
  method RtableGetTable(server: Server, pack: Packing) returns (entries: Reply<Option<seq<Entry>>>)
    requires server.table.Valid()
    ensures entries == if !TableArrives(pack, server.table) then NoReply
                       else Answered(if server.table.M == map[] then None else Some(Flatten(server.table.buckets)))
  {
    hide Flatten, Represents, Arrives;
    var request := new Message(OP_GETTABLE, CT_NONE);
    var response := NetworkQuery(server, request, pack);
    if response == null {
      return NoReply;
    }
    if response.opcode == OP_ERROR {
      return Answered(None);
    }
    ghost var all := Flatten(server.table.buckets);
    var received := response.entries;
    var copied: seq<Entry> := [];
    for i := 0 to |received|
      invariant copied == all[..i] && received == all
    {
      EnumeratedEntry(server.table.buckets, server.table.M, i);
      if !ValueOk(received[i].value) {
        return Answered(None);
      }
      copied := copied + [Entry(received[i].key, received[i].value)];
    }
    assert copied == all;
    return Answered(Some(copied));
  }

  // ---------- Tables too large for a frame ----------

  /** The bytes of the keys and values of some entries. */
  function EntryBytes(s: seq<Entry>): nat {
    if s == [] then 0 else EntryBytes(s[..|s| - 1]) + |s[|s| - 1].key| + |s[|s| - 1].value|
  }

  /** A packing spends at least the bytes of all keys and values it carries. */
  ghost predicate Covers(pack: Packing) {
    forall c: Content {:trigger pack(c)} :: |pack(c)| >= EntryBytes(c.entries)
  }

  /** Whatever the packing, a table whose keys and values come to more than 32767 bytes never reaches a
      server that asks for it. */
  lemma LargeTableNeverArrives(pack: Packing, m: Store, rows: Rows)
    requires Covers(pack) && Represents(rows, m)
    requires EntryBytes(Flatten(rows)) > 0x7FFF
    ensures !Arrives(pack, Plain(OP_GETTABLE, CT_NONE, None), m, rows)
  {
    hide Flatten;
    FlattenIsTheMap(rows, m);
    assert Flatten(rows) != [];
    var reply := Answer(Plain(OP_GETTABLE, CT_NONE, None), m, rows);
    assert m != map[] && reply.entries == Flatten(rows);
    assert |pack(reply)| >= EntryBytes(reply.entries);
  }
}
