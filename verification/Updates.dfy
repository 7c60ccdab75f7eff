/** Updates of the replicated map, and what one forwarded request does to a row of replicas. */
module Updates {
  import opened CString
  import opened EntrySeq

  type Store = map<Key, Value>

  datatype Update = Put(key: Key, value: Value) | Del(key: Key)

  function Apply(m: Store, u: Update): Store {
    match u
    case Put(k, v) => m[k := v]
    case Del(k) => m - {k}
  }

  /** A server refuses an empty value and the deletion of a key it does not hold. */
  predicate Accepted(m: Store, u: Update) {
    match u
    case Put(_, v) => ValueOk(v)
    case Del(k) => k in m
  }

  /** A PUT is refused for want of a byte and for nothing else, a DEL for want of the key. */
  lemma AcceptedExactly(m: Store, u: Update)
    ensures Accepted(m, u) <==> match u case Put(_, v) => v != [] case Del(k) => k in m
  {
  }

  /** The map after a history of updates. */
  function Fold(log: seq<Update>): Store {
    if log == [] then map[] else Apply(Fold(log[..|log| - 1]), log[|log| - 1])
  }

  /** A request that arrives at the first of a row of servers: a server that accepts it applies it
      and passes it on, a server that refuses it does neither. */
  function Propagate(stores: seq<Store>, u: Update): (r: seq<Store>)
    ensures |r| == |stores|
  {
    if stores == [] || !Accepted(stores[0], u) then stores
    else [Apply(stores[0], u)] + Propagate(stores[1..], u)
  }

  lemma PropagateStep(m: Store, behind: seq<Store>, u: Update)
    ensures Accepted(m, u) ==> Propagate([m] + behind, u) == [Apply(m, u)] + Propagate(behind, u)
    ensures !Accepted(m, u) ==> Propagate([m] + behind, u) == [m] + behind
  {
    assert ([m] + behind)[1..] == behind;
  }

  lemma RefusedAtOnce(stores: seq<Store>, u: Update)
    requires stores != [] && !Accepted(stores[0], u)
    ensures Propagate(stores, u) == stores
  {
  }

  /** A retried request changes nothing more: one application or many leave the same replicas. */
  lemma {:induction false} RetryIsHarmless(stores: seq<Store>, u: Update)
    ensures Propagate(Propagate(stores, u), u) == Propagate(stores, u)
  {
    if stores != [] && Accepted(stores[0], u) && u.Put? {
      RetryIsHarmless(stores[1..], u);
      var r := Propagate(stores, u);
      assert r[1..] == Propagate(stores[1..], u);
      assert Apply(r[0], u) == r[0];
    }
  }

  /** The replicas after the same request has been delivered n times. */
  function Repeat(stores: seq<Store>, u: Update, n: nat): seq<Store> {
    if n == 0 then stores else Propagate(Repeat(stores, u, n - 1), u)
  }

  lemma {:induction false} RepeatIsOnce(stores: seq<Store>, u: Update, n: nat)
    requires n > 0
    ensures Repeat(stores, u, n) == Propagate(stores, u)
  {
    if n > 1 {
      RepeatIsOnce(stores, u, n - 1);
      RetryIsHarmless(stores, u);
    } else {
      assert Repeat(stores, u, 0) == stores;
    }
  }

  /** The request reaches a prefix of the servers: those up to the first one that refuses it. */
  lemma {:induction false} PropagateReachesAPrefix(stores: seq<Store>, u: Update, n: nat)
    requires n <= |stores|
    requires forall i :: 0 <= i < n ==> Accepted(stores[i], u)
    requires n < |stores| ==> !Accepted(stores[n], u)
    ensures forall i :: 0 <= i < |stores| ==>
              Propagate(stores, u)[i] == if i < n then Apply(stores[i], u) else stores[i]
  {
    if n > 0 {
      PropagateReachesAPrefix(stores[1..], u, n - 1);
    }
  }
}
