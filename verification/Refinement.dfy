/** Requests that run to their end before anything else happens are runs of interleaved steps: the chain of
    `Protocol` is what `InFlight` makes of a request, step by step, when nothing else is under way. */
module Refinement {
  import opened CString
  import opened Merging
  import opened Topology
  import opened Updates
  import InFlight
  import Protocol

  function LinksOf(c: Protocol.Chain): (r: seq<Link>)
    ensures |r| == |c|
  {
    seq(|c|, i requires 0 <= i < |c| => c[i].next)
  }

  /** The same replicas, connected alike, with the same updates through, and nothing under way. */
  ghost predicate Matches(s: InFlight.State, t: Protocol.State) {
    && s.stores == Protocol.StoresOf(t.chain) && s.links == LinksOf(t.chain)
    && s.settled == t.acked && s.flying == map[]
  }

  // ---------- How far a request gets ----------

  /** How many servers execute a request at the first one. */
  function Depth(c: Protocol.Chain, u: Update): (n: nat)
    ensures n <= |c|
  {
    if c == [] || !Accepted(c[0].store, u) then 0
    else if c[0].next == Live then 1 + Depth(c[1..], u)
    else 1
  }

  lemma {:induction false} DepthIsHowFar(c: Protocol.Chain, u: Update)
    ensures var n := Depth(c, u);
            && (forall i :: 0 <= i < n ==> Accepted(c[i].store, u) && (i < n - 1 ==> c[i].next == Live))
            && (n > 0 && n < |c| && c[n - 1].next == Live ==> !Accepted(c[n].store, u))
            && (n > 0 <==> c != [] && Accepted(c[0].store, u))
  {
    if c != [] && Accepted(c[0].store, u) && c[0].next == Live {
      DepthIsHowFar(c[1..], u);
      var n := Depth(c, u);
      assert forall i :: 0 < i < |c| ==> c[i] == c[1..][i - 1];
    }
  }

  lemma {:induction false} DeliverReachesDepth(c: Protocol.Chain, u: Update)
    ensures forall i :: 0 <= i < |c| ==>
              Protocol.Deliver(c, u)[i] ==
              if i < Depth(c, u) then c[i].(store := Apply(c[i].store, u)) else c[i]
  {
    if c != [] && Accepted(c[0].store, u) && c[0].next == Live {
      DeliverReachesDepth(c[1..], u);
    }
  }

  lemma {:induction false} DeadAtDepth(c: Protocol.Chain, u: Update)
    ensures Protocol.MeetsDead(c, u) <==> Depth(c, u) > 0 && c[Depth(c, u) - 1].next == Dead
    ensures Protocol.MeetsDead(c, u) ==> Protocol.Reach(c) == Depth(c, u)
  {
    if c != [] && Accepted(c[0].store, u) && c[0].next == Live {
      DeadAtDepth(c[1..], u);
      if |c| > 1 {
        assert Depth(c[1..], u) > 0 ==> c[Depth(c, u) - 1] == c[1..][Depth(c[1..], u) - 1];
      }
    }
  }

  // ---------- A request ----------

  lemma {:induction false} RunOn(s: InFlight.State, a: seq<InFlight.Step>, b: seq<InFlight.Step>)
    ensures InFlight.Run(s, a + b) == InFlight.Run(InFlight.Run(s, a), b)
  {
    hide InFlight.Do;
    if b == [] {
      assert a + b == a;
    } else {
      var p := b[..|b| - 1];
      assert (a + b)[..|a + b| - 1] == a + p;
      RunOn(s, a, p);
    }
  }

  lemma RunOne(s: InFlight.State, step: InFlight.Step)
    ensures InFlight.Run(s, [step]) == InFlight.Do(s, step)
  {
    assert [step][..0] == [];
    assert InFlight.Run(s, []) == s;
  }

  /** The steps of one request: it arrives, is passed on as far as it gets, meets the end or a dead connection
      there, and is answered by everyone who has executed it. */
  function RequestSteps(c: Protocol.Chain, u: Update): seq<InFlight.Step> {
    var n := Depth(c, u);
    if n == 0 then [InFlight.Arrive(u)]
    else
      [InFlight.Arrive(u)] + InFlight.Forwards(u.key, n - 1) + [InFlight.Forward(u.key)] +
      if Protocol.MeetsDead(c, u) then [] else InFlight.Replies(u.key, n)
  }

  lemma Arrives(s: InFlight.State, u: Update)
    requires s.stores != [] && s.flying == map[]
    ensures InFlight.Do(s, InFlight.Arrive(u)) ==
            if Accepted(s.stores[0], u)
            then s.(stores := s.stores[0 := Apply(s.stores[0], u)], flying := map[u.key := InFlight.Down(u, 1)])
            else s
  {
    assert s.flying[u.key := InFlight.Down(u, 1)] == map[u.key := InFlight.Down(u, 1)];
  }

  lemma TurnsBack(s: InFlight.State, u: Update, n: nat)
    requires 0 < n <= |s.stores| == |s.links| && s.flying == map[u.key := InFlight.Down(u, n)]
    requires s.links[n - 1] != Dead
    requires n < |s.stores| && s.links[n - 1] == Live ==> !Accepted(s.stores[n], u)
    ensures InFlight.Do(s, InFlight.Forward(u.key)) ==
            s.(flying := map[u.key := InFlight.Up(u, n)], settled := s.settled + [u], left := s.left - {u.key})
  {
    assert s.flying[u.key := InFlight.Up(u, n)] == map[u.key := InFlight.Up(u, n)];
  }

  /** The request has arrived and has been passed on as far as it gets. */
  lemma PassedOn(s: InFlight.State, t: Protocol.State, u: Update)
    requires Matches(s, t) && t.chain != [] && Depth(t.chain, u) > 0
    ensures var c, n := t.chain, Depth(t.chain, u);
            var b := InFlight.Run(s, [InFlight.Arrive(u)] + InFlight.Forwards(u.key, n - 1));
            && |b.stores| == |c| && b == s.(stores := b.stores, flying := map[u.key := InFlight.Down(u, n)])
            && forall i :: 0 <= i < |c| ==>
                 b.stores[i] == if i < n then Apply(c[i].store, u) else c[i].store
  {
    hide InFlight.Do, InFlight.Run, Depth, Apply, Accepted;
    var c, n, k := t.chain, Depth(t.chain, u), u.key;
    DepthIsHowFar(c, u);
    Arrives(s, u);
    RunOne(s, InFlight.Arrive(u));
    var a := InFlight.Do(s, InFlight.Arrive(u));
    assert forall i :: 0 <= i < |c| ==> s.stores[i] == c[i].store && s.links[i] == c[i].next;
    InFlight.ForwardsAdvance(a, k, n - 1);
    RunOn(s, [InFlight.Arrive(u)], InFlight.Forwards(k, n - 1));
    assert a.flying[k := InFlight.Down(u, n)] == map[k := InFlight.Down(u, n)];
  }

  /** A request as one step is what its own steps do when nothing comes between them. */
  lemma RequestRefines(s: InFlight.State, t: Protocol.State, u: Update)
    requires Matches(s, t) && t.chain != []
    ensures Matches(InFlight.Run(s, RequestSteps(t.chain, u)), Protocol.Do(t, Protocol.Request(u)))
  {
    hide InFlight.Do, InFlight.Run, Protocol.Deliver, Protocol.MeetsDead, Protocol.Reach, Depth, Apply, Accepted;
    var c, n, k := t.chain, Depth(t.chain, u), u.key;
    DepthIsHowFar(c, u);
    DeadAtDepth(c, u);
    DeliverReachesDepth(c, u);
    Arrives(s, u);
    RunOne(s, InFlight.Arrive(u));
    if n > 0 {
      PassedOn(s, t, u);
      var passed, forward := [InFlight.Arrive(u)] + InFlight.Forwards(k, n - 1), [InFlight.Forward(k)];
      var b := InFlight.Run(s, passed);
      RunOne(b, InFlight.Forward(k));
      RunOn(s, passed, forward);
      if Protocol.MeetsDead(c, u) {
        LeavesTheRest(b, u, n);
        assert passed + forward + [] == passed + forward;
        assert b.stores[n..] == Protocol.StoresOf(c[n..]) && b.links[n..] == LinksOf(c[n..]);
      } else {
        TurnsBack(b, u, n);
        var d := InFlight.Do(b, InFlight.Forward(k));
        InFlight.AnswerTravelsUp(d, k, n);
        RunOn(s, passed + forward, InFlight.Replies(k, n));
        assert d.flying - {k} == map[];
        var r := Protocol.Deliver(c, u);
        assert b.stores == Protocol.StoresOf(r) && b.links == LinksOf(r);
      }
    }
  }

  lemma LeavesTheRest(s: InFlight.State, u: Update, n: nat)
    requires 0 < n <= |s.stores| == |s.links| && s.flying == map[u.key := InFlight.Down(u, n)]
    requires s.links[n - 1] == Dead
    ensures var t := InFlight.Do(s, InFlight.Forward(u.key));
            && t.stores == s.stores[n..] && t.links == s.links[n..]
            && t.settled == s.settled && t.flying == map[]
  {
    InFlight.DeadForward(s, u.key);
  }

  // ---------- Whole runs ----------

  /** The steps for one step of the chain. */
  function StepsFor(t: Protocol.State, step: Protocol.Step): seq<InFlight.Step>
    requires t.chain != []
  {
    match step
    case Request(u) => RequestSteps(t.chain, u)
    case Relink(i) => [InFlight.Relink(i)]
    case Merge(i) => [InFlight.Step.Merge(i)]
    case Crash(i) => [InFlight.Crash(i)]
    case Join(_) => []
  }

  lemma StepRefines(s: InFlight.State, t: Protocol.State, step: Protocol.Step)
    requires Matches(s, t) && t.chain != [] && !step.Join?
    ensures Matches(InFlight.Run(s, StepsFor(t, step)), Protocol.Do(t, step))
  {
    hide InFlight.Run;
    match step
    case Request(u) => RequestRefines(s, t, u);
    case Relink(i) =>
      RunOne(s, InFlight.Relink(i));
    case Merge(i) =>
      RunOne(s, InFlight.Step.Merge(i));
      MergeRefines(s, t, i);
    case Crash(i) =>
      RunOne(s, InFlight.Crash(i));
      CrashRefines(s, t, i);
  }

  lemma MergeRefines(s: InFlight.State, t: Protocol.State, i: nat)
    requires Matches(s, t)
    ensures Matches(InFlight.Do(s, InFlight.Step.Merge(i)), Protocol.Do(t, Protocol.Merge(i)))
  {
    var c, r := t.chain, Protocol.Do(t, Protocol.Merge(i)).chain;
    if 0 < i < |c| {
      assert MergeInto(s.stores, i) == Protocol.StoresOf(r);
      assert s.links == LinksOf(r);
    }
  }

  lemma CrashRefines(s: InFlight.State, t: Protocol.State, i: nat)
    requires Matches(s, t)
    ensures Matches(InFlight.Do(s, InFlight.Crash(i)), Protocol.Do(t, Protocol.Crash(i)))
  {
    var c := t.chain;
    if i < |c| {
      hide Protocol.CrashAt;
      Protocol.CrashLeaves(c, i);
      var r, d := InFlight.Do(s, InFlight.Crash(i)), Protocol.CrashAt(c, i);
      assert r.stores == Protocol.StoresOf(d);
      assert r.links == LinksOf(d);
    }
  }

  /** Steps of the chain without a join, none of which starts when nobody is left. */
  predicate Ongoing(t: Protocol.State, steps: seq<Protocol.Step>) {
    steps != [] ==>
      var before := steps[..|steps| - 1];
      Ongoing(t, before) && Protocol.Run(t, before).chain != [] && !steps[|steps| - 1].Join?
  }

  function AllSteps(t: Protocol.State, steps: seq<Protocol.Step>): seq<InFlight.Step>
    requires Ongoing(t, steps)
  {
    if steps == [] then []
    else
      var before := steps[..|steps| - 1];
      AllSteps(t, before) + StepsFor(Protocol.Run(t, before), steps[|steps| - 1])
  }

  /** Every run of whole requests, link renewals, merges and crashes is a run of interleaved steps that ends with
      the same replicas, the same links and the same updates acknowledged. */
  lemma {:induction false} RunRefines(s: InFlight.State, t: Protocol.State, steps: seq<Protocol.Step>)
    requires Matches(s, t) && Ongoing(t, steps)
    ensures Matches(InFlight.Run(s, AllSteps(t, steps)), Protocol.Run(t, steps))
  {
    hide InFlight.Do, Protocol.Do, StepsFor;
    if steps == [] {
      assert InFlight.Run(s, []) == s;
    } else {
      var before := steps[..|steps| - 1];
      RunRefines(s, t, before);
      StepRefines(InFlight.Run(s, AllSteps(t, before)), Protocol.Run(t, before), steps[|steps| - 1]);
      RunOn(s, AllSteps(t, before), StepsFor(Protocol.Run(t, before), steps[|steps| - 1]));
    }
  }

  /** So a legal run of the chain in which nobody joins is such a run. */
  lemma LegalRunRefines(s: InFlight.State, t: Protocol.State, steps: seq<Protocol.Step>)
    requires Matches(s, t) && Protocol.Inv(t) && Protocol.Legal(t, steps)
    requires forall i :: 0 <= i < |steps| ==> !steps[i].Join?
    ensures Ongoing(t, steps)
    ensures Matches(InFlight.Run(s, AllSteps(t, steps)), Protocol.Run(t, steps))
  {
    LegalIsOngoing(t, steps);
    RunRefines(s, t, steps);
  }

  lemma {:induction false} LegalIsOngoing(t: Protocol.State, steps: seq<Protocol.Step>)
    requires Protocol.Inv(t) && Protocol.Legal(t, steps)
    requires forall i :: 0 <= i < |steps| ==> !steps[i].Join?
    ensures Ongoing(t, steps)
  {
    if steps != [] {
      LegalIsOngoing(t, steps[..|steps| - 1]);
      Protocol.RunKeepsInv(t, steps[..|steps| - 1]);
    }
  }
}
