/** Merges between neighbours of a chain: one round from head to tail, and merges in any order. */
module Merging {
  import opened CString
  import opened Buckets
  import opened Updates

  /** The i-th server puts all entries of its predecessor into its own table. */
  function MergeInto(stores: seq<Store>, i: nat): (r: seq<Store>)
    ensures |r| == |stores|
  {
    if 0 < i < |stores| then stores[i := stores[i] + stores[i - 1]] else stores
  }

  function MergeAll(stores: seq<Store>, order: seq<nat>): (r: seq<Store>)
    ensures |r| == |stores|
  {
    if order == [] then stores else MergeInto(MergeAll(stores, order[..|order| - 1]), order[|order| - 1])
  }

  /** 1, 2, ..., n */
  function UpTo(n: nat): (order: seq<nat>) {
    seq(n, i => i + 1)
  }

  /** Every server but the first merges from its predecessor, in chain order. */
  function Sweep(stores: seq<Store>): (r: seq<Store>)
    ensures |r| == |stores|
  {
    if stores == [] then [] else MergeAll(stores, UpTo(|stores| - 1))
  }

  ghost predicate AllAre(stores: seq<Store>, m: Store) {
    forall i :: 0 <= i < |stores| ==> stores[i] == m
  }

  ghost predicate KeysWithin(stores: seq<Store>, m: Store) {
    forall i :: 0 <= i < |stores| ==> stores[i].Keys <= m.Keys
  }

  /** Merges never remove a key, and never touch the head. */
  lemma {:induction false} MergesKeepKeys(stores: seq<Store>, order: seq<nat>, i: nat)
    requires i < |stores|
    ensures stores[i].Keys <= MergeAll(stores, order)[i].Keys
    ensures MergeAll(stores, order)[0] == stores[0]
  {
    if order != [] {
      MergesKeepKeys(stores, order[..|order| - 1], i);
    }
  }

  lemma {:induction false} SweepSpreadsTheHead(stores: seq<Store>, n: nat)
    requires n < |stores| && KeysWithin(stores, stores[0])
    ensures forall i :: 0 <= i < |stores| ==>
              MergeAll(stores, UpTo(n))[i] == if i <= n then stores[0] else stores[i]
  {
    if n > 0 {
      assert UpTo(n)[..n - 1] == UpTo(n - 1);
      SweepSpreadsTheHead(stores, n - 1);
      OverrideExactly(stores[n], stores[0]);
    }
  }

  /** One round of merges makes every replica equal to the head exactly if no replica holds a key that
      the head lacks. */
  lemma SweepRepairsExactly(stores: seq<Store>)
    requires stores != []
    ensures AllAre(Sweep(stores), stores[0]) <==> KeysWithin(stores, stores[0])
  {
    hide MergeAll;
    if KeysWithin(stores, stores[0]) {
      SweepSpreadsTheHead(stores, |stores| - 1);
    }
    forall i | 0 <= i < |stores| ensures stores[i].Keys <= Sweep(stores)[i].Keys {
      MergesKeepKeys(stores, UpTo(|stores| - 1), i);
    }
  }

  // ---------- Any order ----------

  /** No server holds a key that one upstream of it lacks. */
  ghost predicate KeysDescend(stores: seq<Store>) {
    forall i, j {:trigger stores[i].Keys, stores[j].Keys} :: 0 <= i <= j < |stores| ==> stores[j].Keys <= stores[i].Keys
  }

  /** The server whose store a server ends up with when every merge copies. */
  function Source(order: seq<nat>, j: nat): (i: nat)
    ensures i <= j
  {
    if order == [] then j
    else
      var p, i := order[..|order| - 1], order[|order| - 1];
      Source(p, if j == i && i > 0 then i - 1 else j)
  }

  lemma MergeCopies(stores: seq<Store>, i: nat)
    requires KeysDescend(stores) && 0 < i < |stores|
    ensures MergeInto(stores, i) == stores[i := stores[i - 1]] && KeysDescend(MergeInto(stores, i))
  {
    var r := MergeInto(stores, i);
    assert stores[i].Keys <= stores[i - 1].Keys;
    OverrideExactly(stores[i], stores[i - 1]);
    forall p, q | 0 <= p <= q < |r| ensures r[q].Keys <= r[p].Keys {
      var p', q' := if p == i then i - 1 else p, if q == i then i - 1 else q;
      assert p' <= q' ==> stores[q'].Keys <= stores[p'].Keys;
    }
  }

  /** When no server holds a key that one upstream lacks, merges in any order copy. */
  lemma {:induction false} MergesCopy(stores: seq<Store>, order: seq<nat>)
    requires KeysDescend(stores) && forall j :: 0 <= j < |order| ==> 0 < order[j] < |stores|
    ensures KeysDescend(MergeAll(stores, order))
    ensures forall j :: 0 <= j < |stores| ==>
              MergeAll(stores, order)[j] == stores[Source(order, j)]
  {
    if order != [] {
      MergesCopy(stores, order[..|order| - 1]);
      MergeCopies(MergeAll(stores, order[..|order| - 1]), order[|order| - 1]);
    }
  }

  /** Merges in any order then make all replicas equal to the head exactly if each server's source was. */
  lemma MergesEqualizeExactly(stores: seq<Store>, order: seq<nat>)
    requires KeysDescend(stores) && stores != []
    requires forall j :: 0 <= j < |order| ==> 0 < order[j] < |stores|
    ensures AllAre(MergeAll(stores, order), stores[0]) <==>
            forall j :: 0 <= j < |stores| ==> stores[Source(order, j)] == stores[0]
  {
    hide MergeAll, Source, KeysDescend;
    MergesCopy(stores, order);
    var r := MergeAll(stores, order);
    if AllAre(r, stores[0]) {
      forall j | 0 <= j < |stores| ensures stores[Source(order, j)] == stores[0] {
        assert r[j] == stores[0];
      }
    } else {
      var j :| 0 <= j < |stores| && r[j] != stores[0];
      assert stores[Source(order, j)] != stores[0];
    }
  }

  /** Exactly the first f replicas equal the head. */
  ghost predicate FreshTo(stores: seq<Store>, f: nat) {
    0 < f <= |stores| && forall i :: 0 <= i < |stores| ==> (stores[i] == stores[0] <==> i < f)
  }

  /** How far the fresh replicas extend after some merges: a merge helps only at the first stale server. */
  function Frontier(f: nat, order: seq<nat>): nat {
    if order == [] then f
    else
      var g := Frontier(f, order[..|order| - 1]);
      if order[|order| - 1] == g then g + 1 else g
  }

  lemma MergeMovesTheFrontier(stores: seq<Store>, f: nat, i: nat)
    requires KeysDescend(stores) && FreshTo(stores, f) && 0 < i < |stores|
    ensures var r := MergeInto(stores, i);
            KeysDescend(r) && FreshTo(r, if i == f then f + 1 else f) && r[0] == stores[0]
  {
    MergeCopies(stores, i);
  }

  lemma {:induction false} MergesMoveTheFrontier(stores: seq<Store>, f: nat, order: seq<nat>)
    requires KeysDescend(stores) && FreshTo(stores, f)
    requires forall j :: 0 <= j < |order| ==> 0 < order[j] < |stores|
    ensures var r := MergeAll(stores, order);
            KeysDescend(r) && FreshTo(r, Frontier(f, order)) && r[0] == stores[0]
  {
    if order != [] {
      var p := order[..|order| - 1];
      MergesMoveTheFrontier(stores, f, p);
      MergeMovesTheFrontier(MergeAll(stores, p), Frontier(f, p), order[|order| - 1]);
    }
  }

  /** The positions f, f + 1, ..., n - 1 occur in the order one after the other, with anything in between. */
  ghost predicate InTurn(order: seq<nat>, f: nat, n: nat) {
    f <= n && exists at :: Occurrences(order, f, n, at)
  }

  ghost predicate Occurrences(order: seq<nat>, f: nat, n: nat, at: seq<nat>)
    requires f <= n
  {
    && |at| == n - f
    && (forall j :: 0 <= j < |at| ==> at[j] < |order| && order[at[j]] == f + j)
    && (forall i, j {:trigger at[i], at[j]} :: 0 <= i < j < |at| ==> at[i] < at[j])
  }

  /** The frontier passes what occurs in turn. */
  lemma {:induction false} TurnsMoveTheFrontier(order: seq<nat>, f: nat, n: nat, at: seq<nat>, p: nat)
    requires f <= n && Occurrences(order, f, n, at) && p <= |order|
    ensures forall j :: 0 <= j < |at| && at[j] < p ==> Frontier(f, order[..p]) > f + j
    ensures Frontier(f, order[..p]) >= f
  {
    if p > 0 {
      assert order[..p][..p - 1] == order[..p - 1];
      TurnsMoveTheFrontier(order, f, n, at, p - 1);
      forall j | 0 <= j < |at| && at[j] < p ensures Frontier(f, order[..p]) > f + j {
        if at[j] == p - 1 && j > 0 {
          assert at[j - 1] < at[j];
        }
      }
    }
  }

  lemma {:induction false} FrontierWasReachedInTurn(order: seq<nat>, f: nat) returns (at: seq<nat>)
    ensures f <= Frontier(f, order) && Occurrences(order, f, Frontier(f, order), at)
  {
    if order == [] {
      at := [];
    } else {
      var p, last := order[..|order| - 1], order[|order| - 1];
      at := FrontierWasReachedInTurn(p, f);
      if last == Frontier(f, p) {
        at := at + [|order| - 1];
      }
    }
  }

  lemma {:induction false} FrontierBound(order: seq<nat>, f: nat, n: nat)
    requires f <= n && forall j :: 0 <= j < |order| ==> order[j] < n
    ensures Frontier(f, order) <= n
  {
    if order != [] {
      FrontierBound(order[..|order| - 1], f, n);
    }
  }

  lemma FrontierExactly(order: seq<nat>, f: nat, n: nat)
    requires f <= n && forall j :: 0 <= j < |order| ==> order[j] < n
    ensures Frontier(f, order) == n <==> InTurn(order, f, n)
  {
    FrontierBound(order, f, n);
    if Frontier(f, order) == n {
      var at := FrontierWasReachedInTurn(order, f);
    }
    if at :| Occurrences(order, f, n, at) {
      assert order[..|order|] == order;
      TurnsMoveTheFrontier(order, f, n, at, |order|);
      if n > f {
        assert at[n - f - 1] < |order|;
      }
    }
  }

  /** Merges in any order make all replicas equal to the head exactly if the positions from the first
      stale replica to the tail occur among them in turn. */
  lemma MergesInAnyOrderExactly(stores: seq<Store>, f: nat, order: seq<nat>)
    requires KeysDescend(stores) && FreshTo(stores, f)
    requires forall j :: 0 <= j < |order| ==> 0 < order[j] < |stores|
    ensures AllAre(MergeAll(stores, order), stores[0]) <==> InTurn(order, f, |stores|)
  {
    hide MergeAll, InTurn;
    MergesMoveTheFrontier(stores, f, order);
    FrontierExactly(order, f, |stores|);
    FrontierBound(order, f, |stores|);
    var r := MergeAll(stores, order);
    if AllAre(r, stores[0]) {
      assert r[|r| - 1] == r[0];
    }
  }

  /** A round from head to tail has every position in turn. */
  lemma RoundIsInTurn(f: nat, n: nat)
    requires 0 < f <= n
    ensures InTurn(UpTo(n - 1), f, n)
  {
    var at := seq(n - f, j requires 0 <= j < n - f => f + j - 1);
    assert Occurrences(UpTo(n - 1), f, n, at);
  }
}
