/** What merges repair in a run in which servers have stopped. */
module Repair {
  import opened CString
  import opened EntrySeq
  import opened InFlight
  import opened Merging
  import opened Topology
  import opened Updates

  function Merges(order: seq<nat>): (steps: seq<Step>)
    ensures |steps| == |order|
  {
    seq(|order|, i requires 0 <= i < |order| => Step.Merge(order[i]))
  }

  /** A run of merge steps does to the replicas what the merges of the servers do, and nothing else. */
  lemma {:induction false} MergesOnly(s: State, order: seq<nat>)
    ensures Run(s, Merges(order)) == s.(stores := MergeAll(s.stores, order))
  {
    if order != [] {
      var n := |order| - 1;
      MergesOnly(s, order[..n]);
      assert Merges(order)[..n] == Merges(order[..n]);
    }
  }

  /** A DEL is on its way to a server that still holds the key. */
  ghost predicate DelAhead(s: State, k: Key) {
    && Going(s, k) && s.flying[k].u.Del?
    && s.flying[k].pos < |s.stores| && k in s.stores[s.flying[k].pos]
  }

  /** Between servers that no DEL is passing, every key of a server is held by all upstream. */
  lemma KeysDescendExactly(s: State)
    requires Reachable(s)
    ensures KeysDescend(s.stores) <==> forall k: Key :: !DelAhead(s, k)
  {
    hide Do;
    ReachableIsGood(s);
    if forall k: Key :: !DelAhead(s, k) {
      forall i, j | 0 <= i <= j < |s.stores| ensures s.stores[j].Keys <= s.stores[i].Keys {
        forall k | k in s.stores[j] ensures k in s.stores[i] {
          HeldUpstream(s, k, i, j);
        }
      }
    }
    if k: Key :| DelAhead(s, k) {
      HeadHasDeleted(s, k);
      DescendingIsWithin(s.stores);
    }
  }

  lemma HeldUpstream(s: State, k: Key, i: nat, j: nat)
    requires Reachable(s) && i <= j < |s.stores| && !DelAhead(s, k)
    requires k in s.stores[j]
    ensures k in s.stores[i]
  {
    hide Do;
    if k !in s.stores[i] {
      NoDeletionIsCut(s, k, i, j);
      NoDeletionIsCut(s, k, s.flying[k].pos, j);
    }
  }

  lemma DescendingIsWithin(stores: seq<Store>)
    requires stores != []
    ensures KeysDescend(stores) ==> KeysWithin(stores, stores[0])
  {
    if KeysDescend(stores) {
      forall i | 0 <= i < |stores| ensures stores[i].Keys <= stores[0].Keys {
      }
    }
  }

  /** Whatever has stopped in a run, one round of merges from head to tail makes all replicas equal to the
      head exactly if no DEL is on its way to a server that holds the key. */
  lemma AnyRunIsRepairedExactly(s: State)
    requires Reachable(s) && s.stores != []
    ensures AllAre(Sweep(s.stores), s.stores[0]) <==> forall k: Key :: !DelAhead(s, k)
  {
    hide Sweep;
    ReachableIsGood(s);
    SweepRepairsExactly(s.stores);
    KeysDescendExactly(s);
    DescendingIsWithin(s.stores);
    if KeysWithin(s.stores, s.stores[0]) {
      forall k: Key ensures !DelAhead(s, k) {
        HeadHasDeleted(s, k);
      }
    }
  }

  lemma HeadHasDeleted(s: State, k: Key)
    requires Inv(s)
    ensures DelAhead(s, k) ==> s.stores != [] && k !in s.stores[0] && !KeysWithin(s.stores, s.stores[0])
  {
    if DelAhead(s, k) {
      var p := s.flying[k].pos;
      assert KeyOk(s, k);
      assert ColumnOf(s.stores, k)[0] == At(s.stores[0], k) == None;
      assert k in s.stores[p].Keys && k !in s.stores[0].Keys;
    }
  }

  /** Without such a DEL, merges in any order make all replicas equal to the head exactly if the server that
      each of them has its entries from was equal to it. Where the first f replicas are the ones that equal
      the head, that is so exactly if the positions from f to the tail occur among the merges in turn. */
  lemma AnyOrderRepairsExactly(s: State, order: seq<nat>, f: nat)
    requires Reachable(s) && s.stores != [] && forall k: Key :: !DelAhead(s, k)
    requires forall j :: 0 <= j < |order| ==> 0 < order[j] < |s.stores|
    ensures AllAre(Run(s, Merges(order)).stores, s.stores[0]) <==>
            forall j :: 0 <= j < |s.stores| ==> s.stores[Source(order, j)] == s.stores[0]
    ensures FreshTo(s.stores, f) ==>
              (AllAre(Run(s, Merges(order)).stores, s.stores[0]) <==> InTurn(order, f, |s.stores|))
  {
    hide MergeAll, InTurn, Do;
    KeysDescendExactly(s);
    MergesOnly(s, order);
    MergesCopy(s.stores, order);
    MergesEqualizeExactly(s.stores, order);
    if FreshTo(s.stores, f) {
      MergesInAnyOrderExactly(s.stores, f, order);
    }
  }

  lemma RunOfFour(start: State, a: Step, b: Step, c: Step, d: Step)
    requires Initial(start)
    ensures Reachable(Do(Do(Do(Do(start, a), b), c), d))
  {
    hide Do, Initial;
    assert [a][..0] == [] && [a, b][..1] == [a] && [a, b, c][..2] == [a, b] && [a, b, c, d][..3] == [a, b, c];
    assert Run(start, []) == start;
    assert Run(start, [a]) == Do(Run(start, [a][..0]), a);
    assert Run(start, [a, b]) == Do(Run(start, [a, b][..1]), b);
    assert Run(start, [a, b, c]) == Do(Run(start, [a, b, c][..2]), c);
    assert Run(start, [a, b, c, d]) == Do(Run(start, [a, b, c, d][..3]), d);
  }

  /** Five servers hold 7; PUT 8 arrives at the head, two merges carry it ahead of the request, and the head
      stops: the first two of the four left have the PUT that nobody has answered. */
  lemma PutLeftByACrash()
    ensures var m7: Store, m8: Store := map[[1] := [7]], map[[1] := [8]];
            Reachable(State([m8, m8, m7, m7], [Live, Live, Live, Absent], map[],
                            [Put([1], [7])], map[[1] := {[8]}]))
  {
    var m7: Store, m8: Store, u := map[[1] := [7]], map[[1] := [8]], Put([1], [8]);
    var start := State([m7, m7, m7, m7, m7], [Live, Live, Live, Live, Absent], map[], [Put([1], [7])], map[]);
    assert Fold(start.settled) == m7 by {
      assert start.settled[..0] == [];
      assert Fold([]) == map[];
    }
    assert Initial(start);
    var s1 := start.(stores := [m8, m7, m7, m7, m7], flying := map[[1] := Down(u, 1)]);
    var s2, s3 := s1.(stores := [m8, m8, m7, m7, m7]), s1.(stores := [m8, m8, m8, m7, m7]);
    assert Apply(m7, u) == m8 && m7 + m8 == m8;
    ArriveAtHead(start, u, s1);
    MergeStep(s1, 1, s2);
    MergeStep(s2, 2, s3);
    FrontStops(s3);
    RunOfFour(start, Arrive(u), Step.Merge(1), Step.Merge(2), Crash(0));
    hide *;
    assert s3.stores[1..] == [m8, m8, m7, m7] && s3.links[1..] == [Live, Live, Live, Absent];
  }

  lemma ArriveAtHead(s: State, u: Update, t: State)
    requires s.stores != [] && s.flying == map[] && Accepted(s.stores[0], u)
    requires t == s.(stores := s.stores[0 := Apply(s.stores[0], u)], flying := map[u.key := Down(u, 1)])
    ensures Do(s, Arrive(u)) == t
  {
  }

  lemma MergeStep(s: State, i: nat, t: State)
    requires 0 < i < |s.stores|
    requires t == s.(stores := s.stores[i := s.stores[i] + s.stores[i - 1]])
    ensures Do(s, Step.Merge(i)) == t
  {
  }

  lemma FrontStops(s: State)
    requires |s.stores| == |s.links| > 1 && s.left == map[]
    requires s.flying == map[[1] := Down(Put([1], [8]), 1)] && s.stores[1] == map[[1] := [8]]
    ensures Do(s, Crash(0)) == State(s.stores[1..], s.links[1..], map[], s.settled, map[[1] := {[8]}])
  {
    assert [1] in s.flying && Awaited(s, 0);
    assert At(s.stores[1], [1]) == Some([8]);
    var t := Collapse(s, 0);
    assert s.left.Keys + s.flying.Keys == {[1]};
    assert LeftAfter(s, 1, [1]) == {} + {[8]};
    assert t.left.Keys == {[1]} && t.left[[1]] == {[8]};
    assert t.flying == map[];
  }

  /** Merging at the third server before the fourth repairs that; in the other order the tail stays stale. */
  lemma WrongOrderLeavesTheTailStale()
    ensures var m7: Store, m8: Store := map[[1] := [7]], map[[1] := [8]];
            var s := State([m8, m8, m7, m7], [Live, Live, Live, Absent], map[],
                           [Put([1], [7])], map[[1] := {[8]}]);
            && Reachable(s)
            && Run(s, Merges([2, 3])).stores == [m8, m8, m8, m8]
            && Run(s, Merges([3, 2])).stores == [m8, m8, m8, m7]
  {
    var m7: Store, m8: Store := map[[1] := [7]], map[[1] := [8]];
    var s := State([m8, m8, m7, m7], [Live, Live, Live, Absent], map[], [Put([1], [7])], map[[1] := {[8]}]);
    PutLeftByACrash();
    assert m7 + m8 == m8 && m7 + m7 == m7 && m8 + m8 == m8;
    MergesOnly(s, [2, 3]);
    MergesOnly(s, [3, 2]);
    MergeTwo(s.stores, 2, 3);
    MergeTwo(s.stores, 3, 2);
  }

  lemma MergeTwo(stores: seq<Store>, i: nat, j: nat)
    ensures MergeAll(stores, [i, j]) == MergeInto(MergeInto(stores, i), j)
  {
    assert [i, j][..1] == [i] && [i][..0] == [];
    assert MergeAll(stores, []) == stores;
    assert MergeAll(stores, [i]) == MergeInto(MergeAll(stores, [i][..0]), i);
  }

  /** A key left behind downstream survives every DEL sent to a head that lacks it, but a PUT followed
      by a DEL of the key removes it from every replica. */
  lemma StaleKeyNeedsAPut(stores: seq<Store>, m: Store, k: Key, v: Value, i: nat)
    requires i < |stores| && forall j :: 0 <= j < |stores| ==> stores[j] - {k} == m
    requires k !in stores[0] && ValueOk(v)
    ensures Propagate(stores, Del(k)) == stores
    ensures Propagate(Propagate(stores, Put(k, v)), Del(k))[i] == m
  {
    RefusedAtOnce(stores, Del(k));
    var n := |stores|;
    PropagateReachesAPrefix(stores, Put(k, v), n);
    var filled := Propagate(stores, Put(k, v));
    PropagateReachesAPrefix(filled, Del(k), n);
    assert filled[i] - {k} == stores[i] - {k};
  }
}
