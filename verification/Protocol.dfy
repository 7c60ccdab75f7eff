/** The chain of replicas over whole runs: requests at the head, servers that join, links that are
    renewed, merges and crashes. A request runs to its end before anything else happens. */
module Protocol {
  import opened CString
  import opened Merging
  import opened Topology
  import opened Updates

  /** A live server. `synced`: it has merged from a synced predecessor since it joined. */
  datatype Replica = Replica(id: Key, store: Store, next: Link, synced: bool)

  type Chain = seq<Replica>

  /** The live replicas from head to tail, and the acknowledged updates in order. */
  datatype State = State(chain: Chain, acked: seq<Update>)

  datatype Step =
    | Request(u: Update)
    | Join(id: Key)
    | Relink(i: nat)
    | Merge(i: nat)
    | Crash(i: nat)

  function Ids(c: Chain): (r: seq<Key>)
    ensures |r| == |c|
  {
    seq(|c|, i requires 0 <= i < |c| => c[i].id)
  }

  function StoresOf(c: Chain): (r: seq<Store>)
    ensures |r| == |c|
  {
    seq(|c|, i requires 0 <= i < |c| => c[i].store)
  }

  /** The first server of the row executes a request and passes it on over an existing link. */
  function Deliver(c: Chain, u: Update): (r: Chain)
    ensures |r| == |c|
  {
    if c == [] || !Accepted(c[0].store, u) then c
    else
      [c[0].(store := Apply(c[0].store, u))] +
      if |c| > 1 && c[0].next == Live then Deliver(c[1..], u) else c[1..]
  }

  /** How many servers a request at the first one can reach over links. */
  function Reach(c: Chain): (n: nat)
    ensures n <= |c|
  {
    if c == [] then 0 else if |c| > 1 && c[0].next == Live then 1 + Reach(c[1..]) else 1
  }

  /** A server that has joined but has received nothing yet. */
  predicate Blank(r: Replica) {
    !r.synced && r.store == map[]
  }

  /** A request gets as far as a server whose connection is dead. */
  predicate MeetsDead(c: Chain, u: Update) {
    && c != [] && Accepted(c[0].store, u)
    && match c[0].next
       case Live => MeetsDead(c[1..], u)
       case Dead => true
       case Absent => false
  }

  /** Where the connections end, they lead to a server that is gone, or the next server has not merged yet. */
  ghost predicate LinksReady(c: Chain) {
    0 < Reach(c) < |c| ==> c[Reach(c) - 1].next == Dead || Blank(c[Reach(c)])
  }

  ghost predicate Enabled(s: State, step: Step) {
    match step
    case Request(u) =>
      && LinksReady(s.chain)
      && (MeetsDead(s.chain, u) ==> Reach(s.chain) < |s.chain| && s.chain[Reach(s.chain)].synced)
    case Join(id) => forall i :: 0 <= i < |s.chain| ==> Less(s.chain[i].id, id)
    case Relink(i) => i < |s.chain|
    case Merge(i) => 0 < i < |s.chain|
    case Crash(i) => i < |s.chain| && |s.chain| > 1 && (i == 0 ==> s.chain[1].synced)
  }

  function MergeAt(c: Chain, i: nat): (r: Chain)
    requires 0 < i < |c|
  {
    c[i := c[i].(store := c[i].store + c[i - 1].store, synced := c[i].synced || c[i - 1].synced)]
  }

  /** A server finds its successor among the live servers again. */
  function RelinkAt(c: Chain, i: nat): (r: Chain)
    requires i < |c|
  {
    c[i := c[i].(next := if i + 1 < |c| then Live else Absent)]
  }

  /** A server is gone; a predecessor that was connected to it keeps the dead connection. */
  function CrashAt(c: Chain, i: nat): (r: Chain)
    requires i < |c|
    ensures |r| == |c| - 1
  {
    var before := if i > 0 && c[i - 1].next == Live then c[i - 1 := c[i - 1].(next := Dead)] else c;
    before[..i] + before[i + 1..]
  }

  /** Everyone who has executed a request that meets a dead connection stops: the last of them reads the reply
      that does not come, and each of the others then waits in vain for the one behind it. */
  function Do(s: State, step: Step): State {
    var c := s.chain;
    match step
    case Request(u) =>
      if MeetsDead(c, u) then s.(chain := c[Reach(c)..])
      else if c != [] && Accepted(c[0].store, u) then State(Deliver(c, u), s.acked + [u]) else s
    case Join(id) => s.(chain := c + [Replica(id, map[], Absent, false)])
    case Relink(i) => if i < |c| then s.(chain := RelinkAt(c, i)) else s
    case Merge(i) => if 0 < i < |c| then s.(chain := MergeAt(c, i)) else s
    case Crash(i) => if i < |c| then s.(chain := CrashAt(c, i)) else s
  }

  function Start(id: Key): State {
    State([Replica(id, map[], Absent, true)], [])
  }

  // ---------- The invariant ----------

  ghost predicate Sub(a: Store, b: Store) {
    forall k :: k in a ==> k in b && a[k] == b[k]
  }

  /** Each store is part of every store upstream of it. */
  ghost predicate Nested(c: Chain) {
    forall i, j {:trigger c[i].store, c[j].store} :: 0 <= i <= j < |c| ==> Sub(c[j].store, c[i].store)
  }

  ghost predicate Inv(s: State) {
    && s.chain != []
    && IsChain(Ids(s.chain))
    && Nested(s.chain)
    && s.chain[|s.chain| - 1].next != Live
    && s.chain[0].synced
    && s.chain[0].store == Fold(s.acked)
    && SyncedPrefix(s.chain)
    && forall i :: 0 <= i < |s.chain| && s.chain[i].synced ==> s.chain[i].store == s.chain[0].store
  }

  ghost predicate SyncedPrefix(c: Chain) {
    forall i, j {:trigger c[i].synced, c[j].synced} :: 0 <= i <= j < |c| && c[j].synced ==> c[i].synced
  }

  // ---------- Requests ----------

  lemma {:induction false} ReachIsLinked(c: Chain)
    ensures forall i :: 0 <= i < Reach(c) - 1 ==> c[i].next == Live
    ensures c != [] ==> Reach(c) > 0 && (Reach(c) < |c| ==> c[Reach(c) - 1].next != Live)
  {
    if |c| > 1 && c[0].next == Live {
      ReachIsLinked(c[1..]);
      forall i | 0 <= i < Reach(c) - 1 ensures c[i].next == Live {
        assert i > 0 ==> c[i] == c[1..][i - 1];
      }
    }
  }

  /** With nested stores a request changes every reachable store, and no other. */
  lemma {:induction false} DeliverEffect(c: Chain, u: Update)
    requires Nested(c) && (c == [] || Accepted(c[0].store, u) || u.Del?)
    ensures forall i :: 0 <= i < |c| ==>
              Deliver(c, u)[i] == if i < Reach(c) then c[i].(store := Apply(c[i].store, u)) else c[i]
  {
    if c != [] {
      if !Accepted(c[0].store, u) {
        NoneHolds(c, u.key);
      } else if |c| > 1 && c[0].next == Live {
        assert Nested(c[1..]) by {
          forall i, j | 0 <= i <= j < |c[1..]| ensures Sub(c[1..][j].store, c[1..][i].store) {
            assert Sub(c[j + 1].store, c[i + 1].store);
          }
        }
        DeliverEffect(c[1..], u);
      }
    }
  }

  lemma NoneHolds(c: Chain, k: Key)
    requires Nested(c) && c != [] && k !in c[0].store
    ensures forall i :: 0 <= i < |c| ==> k !in c[i].store && c[i].store - {k} == c[i].store
  {
    forall i | 0 <= i < |c| ensures k !in c[i].store {
      assert Sub(c[i].store, c[0].store);
    }
  }

  lemma ApplyKeepsSub(a: Store, b: Store, u: Update)
    requires Sub(a, b)
    ensures Sub(Apply(a, u), Apply(b, u))
  {
  }

  /** A request that meets no dead connection changes every replica it has to. */
  lemma UnreachedIsUntouched(c: Chain, u: Update)
    requires Nested(c) && LinksReady(c) && c != [] && Accepted(c[0].store, u) && !MeetsDead(c, u)
    ensures forall i :: Reach(c) <= i < |c| ==> Blank(c[Reach(c)]) || Apply(c[i].store, u) == c[i].store
    ensures forall i :: Reach(c) <= i < |c| ==> c[i].store == map[] || Apply(c[i].store, u) == c[i].store
  {
    var r := Reach(c);
    ReachIsLinked(c);
    if r < |c| && c[r - 1].next == Dead {
      RefusedBeforeDead(c, u);
      var j :| 0 < j < r && u.Del? && u.key !in c[j].store;
      forall i | r <= i < |c| ensures Apply(c[i].store, u) == c[i].store {
        assert Sub(c[i].store, c[j].store);
        assert u.key !in c[i].store;
      }
    } else {
      forall i | r <= i < |c| ensures c[i].store == map[] {
        assert Sub(c[i].store, c[r].store);
      }
    }
  }

  lemma {:induction false} RefusedBeforeDead(c: Chain, u: Update)
    requires c != [] && Accepted(c[0].store, u) && !MeetsDead(c, u) && c[Reach(c) - 1].next == Dead
    ensures exists j :: 0 < j < Reach(c) && u.Del? && u.key !in c[j].store
  {
    if |c| > 1 && c[0].next == Live {
      var t := c[1..];
      if Accepted(t[0].store, u) {
        RefusedBeforeDead(t, u);
        var j :| 0 < j < Reach(t) && u.Del? && u.key !in t[j].store;
        assert c[j + 1] == t[j];
      } else {
        assert c[1] == t[0];
      }
    }
  }

  lemma RequestKeepsInv(s: State, u: Update)
    requires Inv(s) && Enabled(s, Request(u))
    ensures Inv(Do(s, Request(u)))
  {
    var c := s.chain;
    if MeetsDead(c, u) {
      FrontStops(s, Reach(c));
    } else if Accepted(c[0].store, u) {
      AppliedKeepsInv(s, u);
    }
  }

  /** What is left when the first r servers stop is in order if it starts with a server that has caught up. */
  lemma FrontStops(s: State, r: nat)
    requires Inv(s) && r < |s.chain| && s.chain[r].synced
    ensures Inv(s.(chain := s.chain[r..]))
  {
    var c, d := s.chain, s.chain[r..];
    forall i, j | 0 <= i <= j < |d| ensures Sub(d[j].store, d[i].store) {
      assert Sub(c[j + r].store, c[i + r].store);
    }
    forall i, j | 0 <= i < j < |d| ensures Less(Ids(d)[i], Ids(d)[j]) {
      assert Less(Ids(c)[i + r], Ids(c)[j + r]);
    }
    forall i, j | 0 <= i <= j < |d| && d[j].synced ensures d[i].synced {
      assert c[j + r].synced && c[i + r].synced;
    }
  }

  lemma AppliedKeepsInv(s: State, u: Update)
    requires Inv(s) && LinksReady(s.chain) && Accepted(s.chain[0].store, u) && !MeetsDead(s.chain, u)
    ensures Inv(Do(s, Request(u)))
  {
    hide Deliver, Reach, Fold, Less, LinksReady, MeetsDead;
    var c := s.chain;
    var d := Deliver(c, u);
    DeliverEffect(c, u);
    UnreachedIsUntouched(c, u);
    forall i, j | 0 <= i <= j < |d| ensures Sub(d[j].store, d[i].store) {
      assert Sub(c[j].store, c[i].store);
      ApplyKeepsSub(c[j].store, c[i].store, u);
    }
    forall i | 0 <= i < |d| && d[i].synced ensures d[i].store == d[0].store {
      assert i >= Reach(c) ==> c[Reach(c)].synced;
    }
    assert Ids(d) == Ids(c);
    assert SyncedPrefix(d);
    FoldAppend(s.acked, u);
  }

  lemma FoldAppend(log: seq<Update>, u: Update)
    ensures Fold(log + [u]) == Apply(Fold(log), u)
  {
    assert (log + [u])[..|log|] == log;
  }

  lemma JoinKeepsInv(s: State, id: Key)
    requires Inv(s) && Enabled(s, Join(id))
    ensures Inv(Do(s, Join(id)))
  {
    var c := s.chain;
    var d := Do(s, Join(id)).chain;
    forall i, j | 0 <= i <= j < |d| ensures Sub(d[j].store, d[i].store) {
      assert j < |c| ==> Sub(c[j].store, c[i].store);
    }
    forall i, j | 0 <= i < j < |d| ensures Less(Ids(d)[i], Ids(d)[j]) {
      assert j < |c| ==> Less(Ids(c)[i], Ids(c)[j]);
    }
    assert SyncedPrefix(d);
  }

  lemma RelinkKeepsInv(s: State, i: nat)
    requires Inv(s) && Enabled(s, Relink(i))
    ensures Inv(Do(s, Relink(i)))
  {
    var c := s.chain;
    var d := Do(s, Relink(i)).chain;
    assert Ids(d) == Ids(c);
    forall p, q | 0 <= p <= q < |d| ensures Sub(d[q].store, d[p].store) {
      assert Sub(c[q].store, c[p].store);
    }
    assert SyncedPrefix(d);
  }

  /** Under the invariant a merge gives a server exactly its predecessor's store. */
  lemma MergeCopies(c: Chain, i: nat)
    requires Nested(c) && 0 < i < |c|
    ensures MergeAt(c, i)[i].store == c[i - 1].store
  {
    assert Sub(c[i].store, c[i - 1].store);
  }

  lemma MergeKeepsInv(s: State, i: nat)
    requires Inv(s) && Enabled(s, Merge(i))
    ensures Inv(Do(s, Merge(i)))
  {
    var c := s.chain;
    var d := MergeAt(c, i);
    MergeCopies(c, i);
    assert Ids(d) == Ids(c);
    forall p, q | 0 <= p <= q < |d| ensures Sub(d[q].store, d[p].store) {
      assert Sub(c[if q == i then i - 1 else q].store, c[if p == i then i - 1 else p].store) || (p == i && q > i)
          || p == q == i || (p == i - 1 && q == i) by {
        assert q != i && p != i ==> Sub(c[q].store, c[p].store);
        assert q == i && p < i - 1 ==> Sub(c[i - 1].store, c[p].store);
      }
      if p == i && q > i {
        assert Sub(c[q].store, c[i - 1].store);
      }
    }
    assert SyncedPrefix(d);
  }

  /** Every survivor is as it was, but the connection to the crashed server is dead. */
  lemma CrashLeaves(c: Chain, i: nat)
    requires i < |c|
    ensures forall k :: 0 <= k < |c| - 1 ==>
              var x := c[if k < i then k else k + 1];
              CrashAt(c, i)[k] == x.(next := if k == i - 1 && x.next == Live then Dead else x.next)
  {
  }

  lemma CrashKeepsInv(s: State, i: nat)
    requires Inv(s) && Enabled(s, Crash(i))
    ensures Inv(Do(s, Crash(i)))
  {
    hide CrashAt;
    var c := s.chain;
    var d := CrashAt(c, i);
    CrashLeaves(c, i);
    forall p, q | 0 <= p <= q < |d| ensures Sub(d[q].store, d[p].store) {
      assert Sub(c[if q < i then q else q + 1].store, c[if p < i then p else p + 1].store);
    }
    forall p, q | 0 <= p < q < |d| ensures Less(Ids(d)[p], Ids(d)[q]) {
      assert Less(Ids(c)[if p < i then p else p + 1], Ids(c)[if q < i then q else q + 1]);
    }
    forall p, q | 0 <= p <= q < |d| && d[q].synced ensures d[p].synced {
      assert c[if q < i then q else q + 1].synced;
      assert c[if p < i then p else p + 1].synced;
    }
  }

  lemma StepKeepsInv(s: State, step: Step)
    requires Inv(s) && Enabled(s, step)
    ensures Inv(Do(s, step))
  {
    match step
    case Request(u) => RequestKeepsInv(s, u);
    case Join(id) => JoinKeepsInv(s, id);
    case Relink(i) => RelinkKeepsInv(s, i);
    case Merge(i) => MergeKeepsInv(s, i);
    case Crash(i) => CrashKeepsInv(s, i);
  }

  /** The guards ask for no more than this: a request finds the late links in order, and neither a request nor a
      crash leaves a head that has not caught up; a new server has the greatest id. */
  lemma GuardsExactly(s: State, step: Step)
    requires Inv(s)
    ensures var c, t := s.chain, Do(s, step).chain;
            Enabled(s, step) <==>
            match step
            case Request(u) => LinksReady(c) && t != [] && t[0].synced
            case Join(id) => IsChain(Ids(t))
            case Relink(i) => i < |c|
            case Merge(i) => 0 < i < |c|
            case Crash(i) => i < |c| && t != [] && t[0].synced
  {
    var c, t := s.chain, Do(s, step).chain;
    match step
    case Request(u) =>
      RequestHead(c, u);
    case Join(id) =>
      var n := |c|;
      assert Ids(t)[n] == id && forall i :: 0 <= i < n ==> Ids(t)[i] == c[i].id;
      if Enabled(s, step) {
        JoinKeepsInv(s, id);
      } else {
        var i :| 0 <= i < n && !Less(c[i].id, id);
        assert !Less(Ids(t)[i], Ids(t)[n]);
      }
    case Relink(i) =>
    case Merge(i) =>
    case Crash(i) =>
      if i < |c| {
        CrashLeaves(c, i);
      }
  }

  /** The first server that a request leaves. */
  lemma RequestHead(c: Chain, u: Update)
    requires c != []
    ensures 0 < Reach(c) <= |c|
    ensures Deliver(c, u)[0].synced == c[0].synced
  {
  }

  // ---------- Runs ----------

  function Run(s: State, steps: seq<Step>): State {
    if steps == [] then s else Do(Run(s, steps[..|steps| - 1]), steps[|steps| - 1])
  }

  ghost predicate Legal(s: State, steps: seq<Step>) {
    steps != [] ==>
      var before := steps[..|steps| - 1];
      Legal(s, before) && Enabled(Run(s, before), steps[|steps| - 1])
  }

  lemma {:induction false} RunKeepsInv(s: State, steps: seq<Step>)
    requires Inv(s) && Legal(s, steps)
    ensures Inv(Run(s, steps))
  {
    if steps != [] {
      RunKeepsInv(s, steps[..|steps| - 1]);
      StepKeepsInv(Run(s, steps[..|steps| - 1]), steps[|steps| - 1]);
    }
  }

  /** The states of all legal runs from a single server. */
  ghost predicate Reachable(s: State) {
    exists id, steps :: Legal(Start(id), steps) && s == Run(Start(id), steps)
  }

  /** A single server is a run's beginning, and every legal step of a run leads on to a run. */
  lemma StartIsReachable(id: Key)
    ensures Reachable(Start(id))
  {
    assert Legal(Start(id), []) && Run(Start(id), []) == Start(id);
  }

  lemma ReachableGoesOn(s: State, step: Step)
    requires Reachable(s) && Enabled(s, step)
    ensures Reachable(Do(s, step))
  {
    hide Do, Enabled, Start;
    var id, steps :| Legal(Start(id), steps) && s == Run(Start(id), steps);
    assert (steps + [step])[..|steps|] == steps;
    assert Legal(Start(id), steps + [step]);
    assert Run(Start(id), steps + [step]) == Do(s, step);
  }

  lemma ReachableIsGood(s: State)
    requires Reachable(s)
    ensures Inv(s)
  {
    var id, steps :| Legal(Start(id), steps) && s == Run(Start(id), steps);
    assert forall i, j :: 0 <= i <= j < 1 ==> Sub(Start(id).chain[j].store, Start(id).chain[i].store);
    RunKeepsInv(Start(id), steps);
  }

  /** After every run the head and every server that has caught up hold exactly the acknowledged updates;
      a server that has not holds a part of them. */
  lemma EveryRunKeepsReplicas(s: State, i: nat)
    requires Reachable(s)
    ensures s.chain != [] && s.chain[0].store == Fold(s.acked)
    ensures i < |s.chain| ==>
              && Sub(s.chain[i].store, Fold(s.acked))
              && (s.chain[i].synced ==> s.chain[i].store == Fold(s.acked))
  {
    ReachableIsGood(s);
    if i < |s.chain| {
      assert Sub(s.chain[i].store, s.chain[0].store);
    }
  }

  /** A read at the tail, after any run, answers nothing or the newest acknowledged value: never an old
      one. The tail is exact if and only if it counts as many keys as the head. */
  lemma TailReads(s: State, k: Key)
    requires Reachable(s)
    ensures s.chain != []
    ensures var tail, all := s.chain[|s.chain| - 1].store, Fold(s.acked);
            && (k in tail ==> k in all && tail[k] == all[k])
            && (tail == all <==> |tail| == |all|)
  {
    EveryRunKeepsReplicas(s, 0);
    EveryRunKeepsReplicas(s, |s.chain| - 1);
    SubOfSameSize(s.chain[|s.chain| - 1].store, Fold(s.acked));
  }

  lemma SubOfSameSize(a: Store, b: Store)
    requires Sub(a, b)
    ensures a == b <==> |a| == |b|
  {
    assert a.Keys <= b.Keys && |a| == |a.Keys| && |b| == |b.Keys|;
    if |a| == |b| {
      SubsetOfSameSize(a.Keys, b.Keys);
    }
  }

  lemma SubsetOfSameSize<T>(a: set<T>, b: set<T>)
    requires a <= b && |a| == |b|
    ensures a == b
  {
    assert |b - a| == |b| - |a|;
  }

  // ---------- Catching up ----------

  function MergeSteps(order: seq<nat>): (steps: seq<Step>)
    ensures |steps| == |order|
  {
    seq(|order|, i requires 0 <= i < |order| => Merge(order[i]))
  }

  lemma MergeStepMergesStores(s: State, i: nat)
    ensures StoresOf(Do(s, Merge(i)).chain) == MergeInto(StoresOf(s.chain), i)
    ensures Do(s, Merge(i)).acked == s.acked
  {
  }

  /** Merge steps do to the stores what the merges of the servers do. */
  lemma {:induction false} MergeStepsMergeStores(s: State, order: seq<nat>)
    ensures StoresOf(Run(s, MergeSteps(order)).chain) == MergeAll(StoresOf(s.chain), order)
    ensures Run(s, MergeSteps(order)).acked == s.acked
  {
    if order == [] {
      assert MergeSteps(order) == [];
    } else {
      var p, i := order[..|order| - 1], order[|order| - 1];
      MergeStepsMergeStores(s, p);
      MergeStepMergesStores(Run(s, MergeSteps(p)), i);
      hide Do, MergeInto;
      assert MergeSteps(order)[..|order| - 1] == MergeSteps(p);
      assert MergeSteps(order)[|order| - 1] == Merge(i);
    }
  }

  /** After a run the replicas that hold every acknowledged update are a front part of the chain. */
  lemma FreshReplicasComeFirst(s: State) returns (f: nat)
    requires Inv(s)
    ensures FreshTo(StoresOf(s.chain), f) && KeysDescend(StoresOf(s.chain))
  {
    var c, stores := s.chain, StoresOf(s.chain);
    forall i, j | 0 <= i <= j < |stores| ensures stores[j].Keys <= stores[i].Keys {
      assert Sub(c[j].store, c[i].store);
    }
    f := 1;
    while f < |c| && c[f].store == c[0].store
      invariant 0 < f <= |c| && forall i :: 0 <= i < f ==> c[i].store == c[0].store
    {
      f := f + 1;
    }
    forall i | f <= i < |c| ensures c[i].store != c[0].store {
      assert Sub(c[i].store, c[f].store) && Sub(c[f].store, c[0].store);
      SubBothWays(c[f].store, c[0].store);
    }
  }

  lemma SubBothWays(a: Store, b: Store)
    requires Sub(a, b)
    ensures Sub(b, a) ==> a == b
  {
  }

  /** After any run, merges in any order leave every replica with exactly the acknowledged updates if and
      only if the positions from the first stale replica to the tail occur among them in turn. */
  lemma MergesAfterAnyRunExactly(s: State, f: nat, order: seq<nat>)
    requires Reachable(s) && FreshTo(StoresOf(s.chain), f)
    requires forall j :: 0 <= j < |order| ==> 0 < order[j] < |s.chain|
    ensures AllAre(StoresOf(Run(s, MergeSteps(order)).chain), Fold(s.acked)) <==> InTurn(order, f, |s.chain|)
  {
    ReachableIsGood(s);
    var g := FreshReplicasComeFirst(s);
    MergeStepsMergeStores(s, order);
    MergesInAnyOrderExactly(StoresOf(s.chain), f, order);
  }

  /** After any run, one round of merges from head to tail leaves every replica with exactly the
      acknowledged updates. */
  lemma OneRoundOfMergesSuffices(s: State, i: nat)
    requires Reachable(s) && i < |s.chain|
    ensures var stores := StoresOf(Run(s, MergeSteps(UpTo(|s.chain| - 1))).chain);
            |stores| == |s.chain| && stores[i] == Fold(s.acked)
  {
    ReachableIsGood(s);
    var f := FreshReplicasComeFirst(s);
    RoundIsInTurn(f, |s.chain|);
    MergesAfterAnyRunExactly(s, f, UpTo(|s.chain| - 1));
    MergeStepsMergeStores(s, UpTo(|s.chain| - 1));
  }

  function RelinkSteps(n: nat): (steps: seq<Step>)
    ensures |steps| == n
  {
    seq(n, i requires 0 <= i < n => Relink(i))
  }

  /** Link renewals change the links only, whatever they were before. */
  lemma {:induction false} RelinksLink(s: State, m: nat)
    requires m <= |s.chain|
    ensures var t := Run(s, RelinkSteps(m));
            && t.acked == s.acked && |t.chain| == |s.chain|
            && forall i :: 0 <= i < |s.chain| ==>
                 t.chain[i] == s.chain[i].(next := if i >= m then s.chain[i].next
                                                   else if i + 1 < |s.chain| then Live else Absent)
  {
    if m > 0 {
      RelinksLink(s, m - 1);
      assert RelinkSteps(m)[..m - 1] == RelinkSteps(m - 1);
    } else {
      assert RelinkSteps(m) == [];
    }
  }

  /** Merges leave the links alone, and a round of them brings every server up to date in turn. */
  lemma {:induction false} RoundSyncs(s: State, m: nat)
    requires s.chain != [] && s.chain[0].synced && m < |s.chain|
    ensures var t := Run(s, MergeSteps(UpTo(m)));
            && |t.chain| == |s.chain|
            && forall i :: 0 <= i < |s.chain| ==>
                 && t.chain[i].id == s.chain[i].id && t.chain[i].next == s.chain[i].next
                 && t.chain[i].synced == (i <= m || s.chain[i].synced)
  {
    if m > 0 {
      RoundSyncs(s, m - 1);
      assert MergeSteps(UpTo(m))[..m - 1] == MergeSteps(UpTo(m - 1));
    } else {
      assert MergeSteps(UpTo(m)) == [];
    }
  }

  /** After any run, one watch at every server and then one round of merges from head to tail leave a chain
      that is connected from end to end and in which every server has caught up with what is acknowledged. */
  lemma RecoveryIsComplete(s: State, i: nat)
    requires Reachable(s) && i < |s.chain|
    ensures var n := |s.chain|;
            var t := Run(Run(s, RelinkSteps(n)), MergeSteps(UpTo(n - 1)));
            && |t.chain| == n && t.acked == s.acked && AllLinked(t.chain)
            && t.chain[i].id == s.chain[i].id && t.chain[i].synced && t.chain[i].store == Fold(s.acked)
  {
    hide Run, MergeAll;
    ReachableIsGood(s);
    var n := |s.chain|;
    RelinksLink(s, n);
    var r := Run(s, RelinkSteps(n));
    RoundSyncs(r, n - 1);
    MergeStepsMergeStores(r, UpTo(n - 1));
    MergeStepsMergeStores(s, UpTo(n - 1));
    assert StoresOf(r.chain) == StoresOf(s.chain);
    OneRoundOfMergesSuffices(s, i);
    var t := Run(r, MergeSteps(UpTo(n - 1)));
    assert StoresOf(t.chain)[i] == t.chain[i].store;
  }

  // ---------- Reads after writes ----------

  ghost predicate AllLinked(c: Chain) {
    forall i :: 0 <= i < |c| ==> c[i].next == if i + 1 < |c| then Live else Absent
  }

  lemma LinkedMeansReached(c: Chain)
    requires c != [] && c[|c| - 1].next != Live
    ensures AllLinked(c) <==> Reach(c) == |c| && c[|c| - 1].next == Absent
  {
    ReachIsLinked(c);
  }

  /** A request that every server it can reach accepts meets the dead connection at their end. */
  lemma {:induction false} MeetsDeadExactly(c: Chain, u: Update)
    requires c != [] && c[|c| - 1].next != Live
    requires forall i :: 0 <= i < |c| ==> Accepted(c[i].store, u)
    ensures MeetsDead(c, u) <==> c[Reach(c) - 1].next == Dead
  {
    if |c| > 1 && c[0].next == Live {
      MeetsDeadExactly(c[1..], u);
    }
  }

  /** With all links in place an acknowledged PUT is what any server, the tail included, answers to the
      next GET, and after an acknowledged DEL every server answers that the key is missing. */
  lemma AcknowledgedMeansVisibleEverywhere(s: State, u: Update, i: nat)
    requires Inv(s) && AllLinked(s.chain) && Accepted(s.chain[0].store, u) && i < |s.chain|
    ensures var t := Do(s, Request(u));
            && t.acked == s.acked + [u] && |t.chain| == |s.chain|
            && var r := t.chain[i].store;
               if u.Put? then u.key in r && r[u.key] == u.value else u.key !in r
  {
    LinkedMeansReached(s.chain);
    NoneDead(s.chain, u);
    DeliverEffect(s.chain, u);
  }

  lemma {:induction false} NoneDead(c: Chain, u: Update)
    requires forall i :: 0 <= i < |c| ==> c[i].next != Dead
    ensures !MeetsDead(c, u)
  {
    if c != [] && c[0].next == Live {
      NoneDead(c[1..], u);
    }
  }

  /** A request step of the protocol is what the server skeleton does on the reachable row of servers. */
  lemma {:induction false} DeliverIsPropagate(c: Chain, u: Update)
    ensures StoresOf(Deliver(c, u)) == Propagate(StoresOf(c[..Reach(c)]), u) + StoresOf(c[Reach(c)..])
  {
    hide Propagate, Apply, Accepted, StoresOf;
    var n := Reach(c);
    if c == [] {
      StoresAppend([], []);
      PropagateNone(u);
    } else {
      var h, t := c[0], c[1..];
      assert c[..n] == [h] + t[..n - 1] && c[n..] == t[n - 1..] && c == c[..n] + c[n..];
      StoresAppend([h], t[..n - 1]);
      PropagateStep(h.store, StoresOf(t[..n - 1]), u);
      if !Accepted(h.store, u) {
        StoresAppend(c[..n], c[n..]);
      } else {
        var h' := h.(store := Apply(h.store, u));
        if |c| > 1 && c[0].next == Live {
          DeliverIsPropagate(t, u);
          StoresAppend([h'], Deliver(t, u));
        } else {
          StoresAppend([h'], t);
          StoresAppend([], []);
          assert t[..n - 1] == [] && t[n - 1..] == t;
          PropagateNone(u);
        }
      }
    }
  }

  lemma StoresAppend(a: Chain, b: Chain)
    ensures StoresOf(a + b) == StoresOf(a) + StoresOf(b)
    ensures |a| == 1 ==> StoresOf(a) == [a[0].store]
    ensures StoresOf([]) == []
  {
  }

  lemma PropagateNone(u: Update)
    ensures Propagate([], u) == []
  {
  }

  // ---------- Where the guards of a run are needed ----------

  ghost predicate AllEqual(c: Chain) {
    forall i :: 0 < i < |c| ==> c[i].store == c[0].store
  }

  /** When all replicas agree, an acknowledged update keeps them so exactly if every link is in place
      or the update changes nothing. */
  lemma LateLinkBreaksAgreementExactly(s: State, u: Update)
    requires Inv(s) && AllEqual(s.chain) && Accepted(s.chain[0].store, u) && !MeetsDead(s.chain, u)
    ensures AllEqual(Do(s, Request(u)).chain) <==>
            AllLinked(s.chain) || Apply(s.chain[0].store, u) == s.chain[0].store
  {
    var c := s.chain;
    var d := Do(s, Request(u)).chain;
    DeliverEffect(c, u);
    LinkedMeansReached(c);
    ReachIsLinked(c);
    assert forall i :: 0 <= i < |c| ==> c[i].store == c[0].store;
    MeetsDeadExactly(c, u);
    if !AllLinked(c) {
      assert d[Reach(c)].store == c[0].store;
    }
  }

  /** A request that meets a dead connection is not acknowledged, and takes every server down that it has
      reached. What was acknowledged before is kept exactly if the first server behind them counts as many
      keys as the head did. */
  lemma DeadConnectionKeepsUpdatesExactly(s: State, u: Update)
    requires Inv(s) && MeetsDead(s.chain, u)
    ensures var r, t := Reach(s.chain), Do(s, Request(u));
            && t.acked == s.acked && t.chain == s.chain[r..]
            && (r < |s.chain| ==>
                  (t.chain[0].store == Fold(s.acked) <==> |s.chain[r].store| == |s.chain[0].store|))
  {
    var r := Reach(s.chain);
    if r < |s.chain| {
      assert Sub(s.chain[r].store, s.chain[0].store);
      SubOfSameSize(s.chain[r].store, s.chain[0].store);
    }
  }

  /** The crash of the head keeps every acknowledged update exactly if its successor counts as many keys. */
  lemma HeadCrashKeepsUpdatesExactly(s: State)
    requires Inv(s) && |s.chain| > 1
    ensures Do(s, Crash(0)).chain[0].store == Fold(s.acked) <==> |s.chain[1].store| == |s.chain[0].store|
  {
    assert Sub(s.chain[1].store, s.chain[0].store);
    SubOfSameSize(s.chain[1].store, s.chain[0].store);
  }

  lemma LegalIsReachable(id: Key, steps: seq<Step>)
    requires Legal(Start(id), steps)
    ensures Reachable(Run(Start(id), steps))
  {
  }

  /** The servers before a dead connection are the ones that a request takes down. */
  lemma {:induction false} FrontMeetsDead(c: Chain, u: Update, i: nat)
    requires 0 < i <= |c| && c[i - 1].next == Dead
    requires forall j :: 0 <= j < i ==> Accepted(c[j].store, u) && (j < i - 1 ==> c[j].next == Live)
    ensures MeetsDead(c, u) && Reach(c) == i
  {
    if i > 1 {
      FrontMeetsDead(c[1..], u, i - 1);
    }
  }

  /** When a server behind the head crashes in a connected chain, the next update that all servers before it
      accept leaves exactly the servers behind it, and is not acknowledged. */
  lemma CrashInMidChain(s: State, i: nat, u: Update)
    requires Inv(s) && AllLinked(s.chain) && 0 < i < |s.chain|
    requires forall j :: 0 <= j < i ==> Accepted(s.chain[j].store, u)
    ensures Do(Do(s, Crash(i)), Request(u)) == State(s.chain[i + 1..], s.acked)
    ensures Enabled(s, Crash(i))
    ensures Enabled(Do(s, Crash(i)), Request(u)) <==> i + 1 < |s.chain| && s.chain[i + 1].synced
  {
    var c := s.chain;
    var d := CrashAt(c, i);
    CrashLeaves(c, i);
    FrontMeetsDead(d, u, i);
    assert d[i..] == c[i + 1..];
  }

  lemma RelinkHeals(c: Chain, i: nat)
    requires AllLinked(c) && 0 < i < |c|
    ensures var r := RelinkAt(CrashAt(c, i), i - 1);
            && |r| == |c| - 1 && AllLinked(r)
            && forall k :: 0 <= k < |r| ==>
                 var x := c[if k < i then k else k + 1];
                 r[k].id == x.id && r[k].synced == x.synced && r[k].store == x.store
  {
    CrashLeaves(c, i);
  }

  /** When the server before it has renewed its connection in between, the update is acknowledged and shows at
      every survivor, and the survivors are connected from end to end. */
  lemma CrashRelinkedInTime(s: State, i: nat, u: Update)
    requires Inv(s) && AllLinked(s.chain) && 0 < i < |s.chain| && Accepted(s.chain[0].store, u)
    ensures var t, n := Do(Do(Do(s, Crash(i)), Relink(i - 1)), Request(u)), |s.chain|;
            && Enabled(Do(Do(s, Crash(i)), Relink(i - 1)), Request(u))
            && t.acked == s.acked + [u] && |t.chain| == n - 1 && AllLinked(t.chain)
            && forall k :: 0 <= k < n - 1 ==>
                 var x := s.chain[if k < i then k else k + 1];
                 && t.chain[k].id == x.id && t.chain[k].synced == x.synced
                 && t.chain[k].store == Apply(x.store, u)
  {
    hide Deliver, Reach, MeetsDead, Fold, Less, Apply, CrashAt, RelinkAt;
    var r := Do(Do(s, Crash(i)), Relink(i - 1));
    CrashKeepsInv(s, i);
    RelinkKeepsInv(Do(s, Crash(i)), i - 1);
    RelinkHeals(s.chain, i);
    NoneDead(r.chain, u);
    LinkedMeansReached(r.chain);
    DeliverEffect(r.chain, u);
  }

  /** A run of up to four steps, spelled out. */
  lemma RunOfFour(s: State, a: Step, b: Step, c: Step, d: Step)
    ensures Run(s, [a]) == Do(s, a)
    ensures Run(s, [a, b]) == Do(Do(s, a), b)
    ensures Run(s, [a, b, c]) == Do(Do(Do(s, a), b), c)
    ensures Run(s, [a, b, c, d]) == Do(Do(Do(Do(s, a), b), c), d)
    ensures Enabled(s, a) && Enabled(Do(s, a), b) ==> Legal(s, [a, b])
    ensures Legal(s, [a, b]) && Enabled(Do(Do(s, a), b), c) ==> Legal(s, [a, b, c])
    ensures Legal(s, [a, b, c]) && Enabled(Do(Do(Do(s, a), b), c), d) ==> Legal(s, [a, b, c, d])
  {
    hide Do, Enabled;
    assert [a][..0] == [] && [a, b][..1] == [a] && [a, b, c][..2] == [a, b] && [a, b, c, d][..3] == [a, b, c];
    assert Run(s, []) == s && Legal(s, []);
    assert Run(s, [a]) == Do(Run(s, [a][..0]), a);
    assert Run(s, [a, b]) == Do(Run(s, [a, b][..1]), b);
    assert Run(s, [a, b, c]) == Do(Run(s, [a, b, c][..2]), c);
    assert Enabled(s, a) ==> Legal(s, [a]);
  }

  /** A server that has acknowledged a PUT, and a second one that joins it. */
  lemma PutThenJoin()
    ensures var start, t := Start([1]), State([Replica([1], map[[1] := [7]], Absent, true)], [Put([1], [7])]);
            && Enabled(start, Request(Put([1], [7]))) && Do(start, Request(Put([1], [7]))) == t
            && Enabled(t, Join([2]))
            && Do(t, Join([2])) == t.(chain := t.chain + [Replica([2], map[], Absent, false)])
            && Fold(t.acked) == map[[1] := [7]]
  {
    assert Less([1], [2]);
    FoldAppend([], Put([1], [7]));
    assert [] + [Put([1], [7])] == [Put([1], [7])];
    assert Do(Start([1]), Request(Put([1], [7]))).chain == [Replica([1], map[[1] := [7]], Absent, true)];
  }

  /** A legal run after which the crash of the head would lose an acknowledged update. */
  lemma HeirWithoutMerge()
    ensures var steps := [Request(Put([1], [7])), Join([2])];
            var s := Run(Start([1]), steps);
            && Legal(Start([1]), steps)
            && s.acked == [Put([1], [7])]
            && Do(s, Crash(0)).chain[0].store == map[] != Fold(s.acked)
  {
    var r: Step := Request(Put([1], [7]));
    RunOfFour(Start([1]), r, Join([2]), Merge(1), Merge(1));
    PutThenJoin();
    hide Fold;
    var s := Do(Do(Start([1]), r), Join([2]));
    assert Do(s, Crash(0)).chain[0] == s.chain[1];
    assert [1] in map[[1] := [7]];
  }

  /** A legal run to a state in which both replicas agree and the next acknowledged update, put at the
      head before it has connected to the new server, makes them differ. */
  lemma MergedBeforeLinked()
    ensures var steps := [Request(Put([1], [7])), Join([2]), Merge(1)];
            var s := Run(Start([1]), steps);
            && Legal(Start([1]), steps) && Reachable(s)
            && s == State(Two(map[[1] := [7]], map[[1] := [7]]), [Put([1], [7])])
            && AllEqual(s.chain) && !AllLinked(s.chain)
            && Accepted(s.chain[0].store, Put([1], [8])) && !MeetsDead(s.chain, Put([1], [8]))
            && !AllEqual(Do(s, Request(Put([1], [8]))).chain)
  {
    var r: Step, m: Store := Request(Put([1], [7])), map[[1] := [7]];
    RunOfFour(Start([1]), r, Join([2]), Merge(1), Merge(1));
    PutThenJoin();
    MergedChain();
    hide *;
    var t := State([Replica([1], m, Absent, true)], [Put([1], [7])]);
    assert t.(chain := t.chain + [Replica([2], map[], Absent, false)])
        == State([Replica([1], m, Absent, true), Replica([2], map[], Absent, false)], [Put([1], [7])]);
    LegalIsReachable([1], [r, Join([2]), Merge(1)]);
  }

  function Two(a: Store, b: Store): Chain {
    [Replica([1], a, Absent, true), Replica([2], b, Absent, true)]
  }

  lemma MergedChain()
    ensures var m: Store, acked := map[[1] := [7]], [Put([1], [7])];
            var s := State([Replica([1], m, Absent, true), Replica([2], map[], Absent, false)], acked);
            && Enabled(s, Merge(1)) && Do(s, Merge(1)) == State(Two(m, m), acked)
            && AllEqual(Two(m, m)) && !AllLinked(Two(m, m)) && !MeetsDead(Two(m, m), Put([1], [8]))
            && Accepted(Two(m, m)[0].store, Put([1], [8]))
            && !AllEqual(Do(State(Two(m, m), acked), Request(Put([1], [8]))).chain)
  {
    var m: Store, u := map[[1] := [7]], Put([1], [8]);
    assert map[] + m == m;
    var d := Do(State(Two(m, m), [Put([1], [7])]), Request(u)).chain;
    assert d[0].store[[1]] == [8] && d[1].store[[1]] == [7];
  }

  /** A legal run in which a second server joins, catches up and takes over when the first one crashes. */
  lemma HandOver()
    ensures var steps := [Request(Put([1], [7])), Join([2]), Relink(0), Merge(1)];
            var s := Run(Start([1]), steps);
            && Legal(Start([1]), steps) && Enabled(s, Crash(0))
            && Do(s, Crash(0)) == State([Replica([2], map[[1] := [7]], Absent, true)], [Put([1], [7])])
  {
    var r: Step, m: Store := Request(Put([1], [7])), map[[1] := [7]];
    RunOfFour(Start([1]), r, Join([2]), Relink(0), Merge(1));
    PutThenJoin();
    hide Fold, Less, Legal, Run;
    var two := Do(Do(Do(Start([1]), r), Join([2])), Relink(0));
    assert two.chain == [Replica([1], m, Live, true), Replica([2], map[], Absent, false)];
    assert map[] + m == m;
    assert Do(two, Merge(1)).chain == [Replica([1], m, Live, true), Replica([2], m, Absent, true)];
  }

  /** A legal run after which the first server, with all that is acknowledged, still has its connection to a
      second one that has crashed: the next PUT takes it down, and nobody is left. */
  lemma OneRequestStopsTheChain()
    ensures var steps := [Request(Put([1], [7])), Join([2]), Relink(0), Crash(1)];
            var s := Run(Start([1]), steps);
            && Legal(Start([1]), steps) && Reachable(s)
            && |s.chain| == 1 && s.chain[0].store == Fold(s.acked) == map[[1] := [7]]
            && Do(s, Request(Put([1], [8]))) == State([], s.acked)
  {
    var r: Step, m: Store := Request(Put([1], [7])), map[[1] := [7]];
    RunOfFour(Start([1]), r, Join([2]), Relink(0), Crash(1));
    PutThenJoin();
    hide Fold, Less, Legal, Run;
    var two := Do(Do(Do(Start([1]), r), Join([2])), Relink(0));
    assert two.chain == [Replica([1], m, Live, true), Replica([2], map[], Absent, false)];
    assert Do(two, Crash(1)).chain == [Replica([1], m, Dead, true)];
  }

  /** A DEL that comes before the connection does leaves its key at the server that has already merged: later
      merges do not remove it there, and further DELs are refused by the head. */
  lemma LateLinkKeepsADeletedKey()
    ensures var steps := [Request(Put([1], [7])), Join([2]), Merge(1)];
            var s := Do(Do(Do(Run(Start([1]), steps), Request(Del([1]))), Relink(0)), Merge(1));
            && Reachable(Run(Start([1]), steps))
            && AllLinked(s.chain) && StoresOf(s.chain) == [map[], map[[1] := [7]]]
            && Do(s, Request(Del([1]))) == s
  {
    MergedBeforeLinked();
    DelAtOne([Put([1], [7])]);
    hide *;
  }

  lemma DelAtOne(acked: seq<Update>)
    ensures var m: Store, none: Store, u := map[[1] := [7]], map[], Del([1]);
            var b := State(Two(none, m), acked + [u]);
            var s := b.(chain := [Replica([1], none, Live, true), Replica([2], m, Absent, true)]);
            && Do(State(Two(m, m), acked), Request(u)) == b
            && Do(b, Relink(0)) == s && Do(s, Merge(1)) == s && Do(s, Request(u)) == s
            && AllLinked(s.chain) && StoresOf(s.chain) == [none, m]
  {
    var m: Store, none: Store := map[[1] := [7]], map[];
    assert m + none == m && m - {[1]} == none;
    assert Do(State(Two(m, m), acked), Request(Del([1]))).chain == Two(none, m);
    var linked := [Replica([1], none, Live, true), Replica([2], m, Absent, true)];
    assert RelinkAt(Two(none, m), 0) == linked && MergeAt(linked, 1) == linked;
  }
}
