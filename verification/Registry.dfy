/** The server's register of client threads, kept in a list under the keys `thread_1`, `thread_2`, ... */
module Registry {
  import opened CString
  import opened EntrySeq
  import opened Lists
  import opened Codec

  /** `sprintf("%d")` for a non-negative number */
  function Decimal(n: nat): (s: Key)
    ensures s != []
  {
    if n < 10 then [48 + n] else Decimal(n / 10) + [48 + n % 10]
  }

  function DecimalValue(s: Key): int {
    if s == [] then 0 else 10 * DecimalValue(s[..|s| - 1]) + s[|s| - 1] - 48
  }

  lemma {:induction false} DecimalRoundTrip(n: nat)
    ensures DecimalValue(Decimal(n)) == n
  {
    var s := Decimal(n);
    if n < 10 {
      assert s[..0] == [];
    } else {
      DecimalRoundTrip(n / 10);
      assert s[..|s| - 1] == Decimal(n / 10);
    }
  }

  /** "thread_" followed by the number */
  function ThreadKey(n: nat): Key {
    [116, 104, 114, 101, 97, 100, 95] + Decimal(n)
  }

  lemma ThreadKeysDiffer(n: nat, m: nat)
    ensures ThreadKey(n) == ThreadKey(m) <==> n == m
  {
    DecimalRoundTrip(n);
    DecimalRoundTrip(m);
    assert ThreadKey(n)[7..] == Decimal(n) && ThreadKey(m)[7..] == Decimal(m);
  }

  /** The text of the key: `thread_` and the digits of the number, the last digit at the end. */
  lemma ThreadKeyText(n: nat, d: nat)
    requires d < 10
    ensures n == 0 ==> ThreadKey(d) == [116, 104, 114, 101, 97, 100, 95, 48 + d]
    ensures n > 0 ==> ThreadKey(10 * n + d) == ThreadKey(n) + [48 + d]
  {
    assert (10 * n + d) / 10 == n && (10 * n + d) % 10 == d;
  }

  // ---------- The buffer for the key ----------

  function Pow10(e: nat): nat {
    if e == 0 then 1 else 10 * Pow10(e - 1)
  }

  /** `ceil(log10(n))` */
  function CeilLog10(n: nat): nat
    requires n >= 1
  {
    if n == 1 then 0 else 1 + CeilLog10((n + 9) / 10)
  }

  /** The characters the program sets aside for the key of the n-th client. */
  function KeyBufferSize(n: nat): nat
    requires n >= 1
  {
    7 + CeilLog10(n) + 1
  }

  ghost predicate IsPowerOfTen(n: nat) {
    exists e :: n == Pow10(e)
  }

  /** The least exponent whose power of ten is not below n. */
  lemma {:induction false} CeilLog10Is(n: nat)
    requires n >= 1
    ensures n <= Pow10(CeilLog10(n))
    ensures CeilLog10(n) > 0 ==> Pow10(CeilLog10(n) - 1) < n
  {
    if n > 1 {
      var m := (n + 9) / 10;
      CeilLog10Is(m);
    }
  }

  lemma {:induction false} DecimalLength(n: nat)
    requires n >= 1
    ensures Pow10(|Decimal(n)| - 1) <= n < Pow10(|Decimal(n)|)
  {
    if n >= 10 {
      DecimalLength(n / 10);
    } else {
      assert Pow10(1) == 10 * Pow10(0);
    }
  }

  lemma {:induction false} Pow10Grows(a: nat, b: nat)
    requires a < b
    ensures Pow10(a) < Pow10(b)
  {
    if a + 1 < b {
      Pow10Grows(a, b - 1);
    }
    Pow10Positive(b - 1);
  }

  lemma {:induction false} Pow10Positive(e: nat)
    ensures Pow10(e) > 0
  {
    if e > 0 {
      Pow10Positive(e - 1);
    }
  }

  lemma Pow10Between(a: nat, b: nat)
    requires a > 0 && Pow10(a - 1) <= Pow10(b) < Pow10(a)
    ensures b == a - 1
  {
    if b < a - 1 {
      Pow10Grows(b, a - 1);
    }
    if b >= a && b > a {
      Pow10Grows(a, b);
    }
  }

  /** The buffer holds the key of the n-th client and its terminator exactly if n is no power of ten; for
      the first client, the tenth, the hundredth it is one character short. */
  lemma KeyBufferFitsExactly(n: nat)
    requires n >= 1
    ensures |ThreadKey(n)| + 1 <= KeyBufferSize(n) <==> !IsPowerOfTen(n)
    ensures IsPowerOfTen(n) ==> |ThreadKey(n)| + 1 == KeyBufferSize(n) + 1
  {
    var d, e := |Decimal(n)|, CeilLog10(n);
    DecimalLength(n);
    CeilLog10Is(n);
    if IsPowerOfTen(n) {
      var x :| n == Pow10(x);
      Pow10Between(d, x);
    }
    if n == Pow10(d - 1) {
      if e > d - 1 {
        AtMostPow10(d - 1, e - 1);
      } else if e < d - 1 {
        Pow10Grows(e, d - 1);
      }
    } else {
      if e > d {
        AtMostPow10(d, e - 1);
      } else if e < d {
        AtMostPow10(e, d - 1);
      }
    }
  }

  lemma AtMostPow10(a: nat, b: nat)
    requires a <= b
    ensures Pow10(a) <= Pow10(b)
  {
    if a < b {
      Pow10Grows(a, b);
    }
  }

  predicate IsSocket(socket: int) {
    0 <= socket <= INT_MAX
  }

  /** The entry for a thread. Of the thread's record only the socket is modelled. */
  function Info(n: nat, socket: int): Entry
    requires IsSocket(socket)
  {
    Entry(ThreadKey(n), BigEndian(socket))
  }

  /** The sockets of clients 1, 2, ..., of which those from number `from` on are registered. */
  ghost predicate Registered(contents: seq<Entry>, sockets: seq<int>, from: nat) {
    && 1 <= from <= |sockets| + 1
    && |contents| == |sockets| + 1 - from
    && (forall i :: 0 <= i < |sockets| ==> IsSocket(sockets[i]))
    && (forall i {:trigger sockets[i]} :: from - 1 <= i < |sockets| ==> Info(i + 1, sockets[i]) in contents)
    && (forall j {:trigger contents[j]} :: 0 <= j < |contents| ==> IsThread(contents[j].key, from, |sockets|))
  }

  ghost predicate IsThread(key: Key, from: nat, to: nat) {
    exists i: nat {:trigger ThreadKey(i)} :: from <= i <= to && key == ThreadKey(i)
  }

  class ThreadRegistry {
    var threadInfoList: List
    var nextThreadNumber: int
    var closed: seq<int>
    ghost var sockets: seq<int>

    ghost predicate Valid()
      reads this, threadInfoList, threadInfoList.Repr
    {
      && threadInfoList.Valid() && this !in threadInfoList.Repr
      && nextThreadNumber == |sockets| + 1
      && Registered(threadInfoList.contents, sockets, 1)
    }

    constructor ()
      ensures Valid() && sockets == [] && closed == [] && fresh(threadInfoList.Repr)
    {
      threadInfoList := new List();
      nextThreadNumber := 1;
      closed, sockets := [], [];
    }

    /** The part of `network_main_loop` that registers an accepted client: always a new entry. */
    method Register(socket: int) returns (result: int)
      requires Valid() && IsSocket(socket)
      modifies this, threadInfoList.Repr
      ensures Valid() && threadInfoList == old(threadInfoList)
      ensures fresh(threadInfoList.Repr - old(threadInfoList.Repr))
      ensures result == 0 && sockets == old(sockets) + [socket] && closed == old(closed)
      ensures nextThreadNumber == old(nextThreadNumber) + 1
    {
      hide List.Valid, Insert, HasKey, ThreadKey, BigEndian, Registered;
      var entry := Info(nextThreadNumber, socket);
      nextThreadNumber := nextThreadNumber + 1;
      RegisterOne(threadInfoList.contents, sockets, socket) by {
        ListIsOrdered(threadInfoList);
      }
      result := threadInfoList.Add(entry);
      sockets := sockets + [socket];
    }

    /** `network_server_close`: every registered client socket is closed once, in the order of arrival,
        and the register is left empty. */
    method Close()
      requires Valid()
      modifies this, threadInfoList.Repr
      ensures threadInfoList == old(threadInfoList) && threadInfoList.Valid()
      ensures threadInfoList.contents == [] && closed == old(closed) + old(sockets)
    {
      hide List.Valid, Delete, HasKey, ThreadKey, BigEndian, FromBigEndian, Registered;
      var i := 1;
      while i < nextThreadNumber
        invariant 1 <= i <= nextThreadNumber == |sockets| + 1 && sockets == old(sockets)
        invariant threadInfoList == old(threadInfoList) && threadInfoList.Repr == old(threadInfoList.Repr)
        invariant threadInfoList.Valid() && this !in threadInfoList.Repr
        invariant Registered(threadInfoList.contents, sockets, i)
        invariant closed == old(closed) + sockets[..i - 1]
      {
        var key := ThreadKey(i);
        ListIsOrdered(threadInfoList);
        FindsTheSocket(threadInfoList.contents, sockets, i);
        UnregisterOne(threadInfoList.contents, sockets, i);
        assert sockets[..i] == sockets[..i - 1] + [sockets[i - 1]];
        var count := threadInfoList.Size();
        if count > 0 {
          var entry := threadInfoList.Get(key);
          var socket := FromBigEndian(entry.value.value);
          closed := closed + [socket];
          var removed := threadInfoList.Remove(key);
        }
        i := i + 1;
      }
      NoneLeft(threadInfoList.contents, sockets);
    }
  }

  lemma ListIsOrdered(list: List)
    requires list.Valid()
    ensures Sorted(list.contents)
  {
  }

  lemma NoneLeft(contents: seq<Entry>, sockets: seq<int>)
    requires Registered(contents, sockets, |sockets| + 1)
    ensures contents == [] && sockets[..|sockets|] == sockets
  {
  }

  lemma RegisterOne(contents: seq<Entry>, sockets: seq<int>, socket: int)
    requires Sorted(contents) && Registered(contents, sockets, 1) && IsSocket(socket)
    ensures var e := Info(|sockets| + 1, socket);
            && ValueOk(e.value) && !HasKey(contents, e.key)
            && Registered(Insert(contents, e), sockets + [socket], 1)
  {
    var n := |sockets|;
    var e := Info(n + 1, socket);
    var r, all := Insert(contents, e), sockets + [socket];
    if HasKey(contents, e.key) {
      var j :| 0 <= j < |contents| && contents[j].key == e.key;
      var i: nat :| 1 <= i <= n && contents[j].key == ThreadKey(i);
      ThreadKeysDiffer(i, n + 1);
      assert false;
    }
    InsertSorted(contents, e);
    forall i | 0 <= i < |all| ensures Info(i + 1, all[i]) in r {
      InsertMembers(contents, e, Info(i + 1, all[i]));
      ThreadKeysDiffer(i + 1, n + 1);
      assert i < n ==> all[i] == sockets[i];
    }
    forall j | 0 <= j < |r| ensures IsThread(r[j].key, 1, n + 1) {
      InsertMembers(contents, e, r[j]);
      if r[j] == e {
        assert r[j].key == ThreadKey(n + 1);
      } else {
        var p :| 0 <= p < |contents| && contents[p] == r[j];
        assert IsThread(contents[p].key, 1, n);
      }
    }
  }

  /** The i-th client's entry is there, and it carries the client's socket. */
  lemma FindsTheSocket(contents: seq<Entry>, sockets: seq<int>, i: nat)
    requires Sorted(contents) && Registered(contents, sockets, i) && i <= |sockets|
    ensures |contents| > 0 && HasKey(contents, ThreadKey(i))
    ensures forall e: Entry :: e in contents && e.key == ThreadKey(i) ==>
              |e.value| == 4 && FromBigEndian(e.value) == sockets[i - 1]
  {
    hide BigEndian, FromBigEndian, ThreadKey, Less;
    var mine := Info(i, sockets[i - 1]);
    assert mine in contents;
    CountRoundTrip(sockets[i - 1]);
    forall e: Entry | e in contents && e.key == ThreadKey(i)
      ensures e == mine
    {
      OneEntryPerKey(contents, e, mine);
    }
  }

  lemma UnregisterOne(contents: seq<Entry>, sockets: seq<int>, i: nat)
    requires Sorted(contents) && Registered(contents, sockets, i) && i <= |sockets|
    ensures Registered(Delete(contents, ThreadKey(i)), sockets, i + 1)
  {
    hide BigEndian, ThreadKey, Delete, Less;
    FindsTheSocket(contents, sockets, i);
    var k, r := ThreadKey(i), Delete(contents, ThreadKey(i));
    DeleteSorted(contents, k);
    forall p | i <= p < |sockets| ensures Info(p + 1, sockets[p]) in r {
      ThreadKeysDiffer(p + 1, i);
      DeleteMembers(contents, k, Info(p + 1, sockets[p]));
    }
    forall j | 0 <= j < |r| ensures IsThread(r[j].key, i + 1, |sockets|) {
      DeleteMembers(contents, k, r[j]);
      var p :| 0 <= p < |contents| && contents[p] == r[j];
      assert IsThread(contents[p].key, i, |sockets|);
    }
  }

  lemma OneEntryPerKey(s: seq<Entry>, x: Entry, y: Entry)
    requires Sorted(s) && x in s && y in s && x.key == y.key
    ensures x == y
  {
    var i :| 0 <= i < |s| && s[i] == x;
    KeyUnique(s, i);
  }
}
