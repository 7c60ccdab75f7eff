/** Several updates on their way down the chain at once, and servers that stop at any time. A server
    releases its table before it forwards, so local steps and forwarding steps of different requests
    interleave freely. */
module InFlight {
  import opened CString
  import opened EntrySeq
  import opened Merging
  import opened Topology
  import opened Updates

  /** An update that some servers have open, the first `pos` of the chain. On its way down these are the
      ones that have executed it, and the last of them passes it on; on its way up every server has
      executed it, and the last of them answers its predecessor. */
  datatype Flight = Down(u: Update, pos: nat) | Up(u: Update, pos: nat)

  /** The replicas from head to tail and their next links, the requests under way by key, the updates that
      have reached the end of the chain, in that order, and for each key the values that PUTs have left
      at some servers when the servers that had them open stopped. */
  datatype State = State(
    stores: seq<Store>, links: seq<Link>, flying: map<Key, Flight>, settled: seq<Update>, left: map<Key, set<Value>>)

  datatype Step =
    | Arrive(u: Update)
    | Forward(k: Key)
    | Reply(k: Key)
    | Merge(i: nat)
    | Relink(i: nat)
    | Crash(c: nat)

  predicate Enabled(s: State, step: Step) {
    match step
    case Arrive(u) => s.stores != [] && u.key !in s.flying
    case Forward(k) => k in s.flying && s.flying[k].Down? && 0 < s.flying[k].pos <= |s.links| == |s.stores|
    case Reply(k) => k in s.flying && s.flying[k].Up? && 0 < s.flying[k].pos
    case Merge(i) => 0 < i < |s.stores|
    case Relink(i) => i < |s.links| == |s.stores|
    case Crash(c) => c < |s.stores| == |s.links|
  }

  /** A step that is not enabled does nothing. */
  function Do(s: State, step: Step): State {
    if !Enabled(s, step) then s else
    match step
    case Arrive(u) =>
      if Accepted(s.stores[0], u)
      then s.(stores := s.stores[0 := Apply(s.stores[0], u)], flying := s.flying[u.key := Down(u, 1)])
      else s
    case Forward(k) => Pass(s, k)
    case Reply(k) =>
      var f := s.flying[k];
      s.(flying := if f.pos == 1 then s.flying - {k} else s.flying[k := Up(f.u, f.pos - 1)])
    case Merge(i) => s.(stores := MergeInto(s.stores, i))
    case Relink(i) => s.(links := s.links[i := if i + 1 < |s.links| then Live else Absent])
    case Crash(c) => if Awaited(s, c) then Collapse(s, c) else Vanish(s, c)
  }

  /** The last server that has executed an update passes it on. A server that refuses a DEL refuses it
      ten times, after which the one before it goes on as at the tail. Over a dead connection no reply comes
      back: the server reads the missing one and stops, and so does everyone who waits for it. */
  function Pass(s: State, k: Key): State
    requires Enabled(s, Forward(k))
  {
    var f := s.flying[k];
    match s.links[f.pos - 1]
    case Dead => Collapse(s, f.pos - 1)
    case Absent => Settle(s, k)
    case Live =>
      if f.pos < |s.stores| && Accepted(s.stores[f.pos], f.u)
      then s.(stores := s.stores[f.pos := Apply(s.stores[f.pos], f.u)], flying := s.flying[k := Down(f.u, f.pos + 1)])
      else Settle(s, k)
  }

  /** The update turns back at the end of the chain. */
  function Settle(s: State, k: Key): State
    requires k in s.flying
  {
    var f := s.flying[k];
    s.(flying := s.flying[k := Up(f.u, f.pos)], settled := s.settled + [f.u], left := s.left - {k})
  }

  /** Somebody has an update open at server c; its predecessor, if any, waits for the answer. */
  predicate Awaited(s: State, c: nat) {
    exists k :: k in s.flying && s.flying[k].pos > c
  }

  /** Server c stops, and everyone up to the head who waits through it stops too. Updates that are open
      behind them go on; the others are gone with the servers that had them open. */
  function Collapse(s: State, c: nat): State
    requires c < |s.stores| == |s.links|
  {
    var d := c + 1;
    State(
      s.stores[d..], s.links[d..],
      map k | k in s.flying && s.flying[k].pos > d :: Shifted(s.flying[k], d),
      s.settled,
      map k | k in s.left.Keys + s.flying.Keys :: LeftAfter(s, d, k))
  }

  function Shifted(f: Flight, d: nat): Flight
    requires d <= f.pos
  {
    match f
    case Down(u, pos) => Down(u, pos - d)
    case Up(u, pos) => Up(u, pos - d)
  }

  /** Server c stops while nobody waits for it; its predecessor keeps a dead connection. */
  function Vanish(s: State, c: nat): State
    requires c < |s.stores| == |s.links|
  {
    var before := if c > 0 && s.links[c - 1] == Live then s.links[c - 1 := Dead] else s.links;
    s.(stores := s.stores[..c] + s.stores[c + 1..], links := before[..c] + before[c + 1..])
  }

  function Left(s: State, k: Key): set<Value> {
    if k in s.left then s.left[k] else {}
  }

  /** What is left of a key's PUTs when the first d servers stop: also that of a PUT which only they had
      open, if merges have carried it to a server behind them. */
  function LeftAfter(s: State, d: nat, k: Key): set<Value> {
    if Going(s, k) && s.flying[k].u.Put? && s.flying[k].pos <= d
       && exists i :: d <= i < |s.stores| && At(s.stores[i], k) == Some(s.flying[k].u.value)
    then Left(s, k) + {s.flying[k].u.value}
    else Left(s, k)
  }

  /** The update of k is on its way down. */
  predicate Going(s: State, k: Key) {
    k in s.flying && s.flying[k].Down?
  }

  // ---------- One key along the chain ----------

  /** What a map says about one key. */
  function At(m: Store, k: Key): Option<Value> {
    if k in m then Some(m[k]) else None
  }

  /** What the servers say about one key, from head to tail. */
  type Column = seq<Option<Value>>

  function ColumnOf(stores: seq<Store>, k: Key): (w: Column)
    ensures |w| == |stores|
  {
    seq(|stores|, i requires 0 <= i < |stores| => At(stores[i], k))
  }

  /** From position a on, no server holds the key when one before it does not. */
  ghost predicate Descends(w: Column, a: nat) {
    forall i, j {:trigger w[i], w[j]} :: a <= i <= j < |w| && w[j].Some? ==> w[i].Some?
  }

  /** The settled value, or one that a PUT has left. */
  predicate Usual(x: Option<Value>, base: Option<Value>, left: set<Value>) {
    x == base || (x.Some? && x.value in left)
  }

  ghost predicate QuietColumn(w: Column, base: Option<Value>, left: set<Value>) {
    && Descends(w, 0)
    && forall i :: 0 <= i < |w| ==> Usual(w[i], base, left)
  }

  /** A PUT of v has been executed by the first p servers; merges can have carried it on, but where nothing
      else is left of the key no further than without a gap. */
  ghost predicate PutColumn(w: Column, p: nat, v: Value, base: Option<Value>, left: set<Value>) {
    && 0 < p <= |w| && Descends(w, 0)
    && (forall i :: 0 <= i < p ==> w[i] == Some(v))
    && (forall i :: 0 <= i < |w| ==> w[i] == Some(v) || Usual(w[i], base, left))
    && (left == {} ==> forall i, j {:trigger w[i], w[j]} :: 0 <= i <= j < |w| && w[j] == Some(v) ==> w[i] == Some(v))
  }

  /** A DEL has been executed by the first p servers, and by no other. */
  ghost predicate DelColumn(w: Column, p: nat, base: Option<Value>, left: set<Value>) {
    && 0 < p <= |w| && Descends(w, p)
    && (forall i :: 0 <= i < p ==> w[i] == None)
    && (forall i :: p <= i < |w| ==> Usual(w[i], base, left))
    && (left == {} ==> base.Some?)
  }

  function Merged(w: Column, i: nat): Column
    requires 0 < i < |w|
  {
    if w[i - 1].Some? then w[i := w[i - 1]] else w
  }

  lemma QuietMerged(w: Column, i: nat, base: Option<Value>, left: set<Value>)
    requires 0 < i < |w| && QuietColumn(w, base, left)
    ensures QuietColumn(Merged(w, i), base, left)
  {
  }

  lemma PutMerged(w: Column, i: nat, p: nat, v: Value, base: Option<Value>, left: set<Value>)
    requires 0 < i < |w| && PutColumn(w, p, v, base, left)
    ensures PutColumn(Merged(w, i), p, v, base, left)
  {
    var r := Merged(w, i);
    assert w[i].Some? ==> w[i - 1].Some?;
    assert forall j :: 0 <= j < |r| ==> r[j] == if j == i && w[i - 1].Some? then w[i - 1] else w[j];
  }

  lemma DelMerged(w: Column, i: nat, p: nat, base: Option<Value>, left: set<Value>)
    requires 0 < i < |w| && DelColumn(w, p, base, left)
    ensures DelColumn(Merged(w, i), p, base, left)
  {
    var r := Merged(w, i);
    assert i <= p ==> r == w;
  }

  lemma QuietArrive(w: Column, u: Update, base: Option<Value>, left: set<Value>)
    requires w != [] && QuietColumn(w, base, left)
    ensures u.Put? ==> PutColumn(w[0 := Some(u.value)], 1, u.value, base, left)
    ensures u.Del? && w[0].Some? ==> DelColumn(w[0 := None], 1, base, left)
  {
  }

  lemma PutForward(w: Column, p: nat, v: Value, base: Option<Value>, left: set<Value>)
    requires PutColumn(w, p, v, base, left)
    ensures p < |w| ==> PutColumn(w[p := Some(v)], p + 1, v, base, left)
    ensures p == |w| ==> QuietColumn(w, Some(v), {})
  {
  }

  lemma DelForward(w: Column, p: nat, base: Option<Value>, left: set<Value>)
    requires DelColumn(w, p, base, left)
    ensures p < |w| && w[p].Some? ==> DelColumn(w[p := None], p + 1, base, left)
    ensures p == |w| || w[p] == None ==> QuietColumn(w, None, {})
  {
  }

  lemma Suffix(w: Column, d: nat, p: nat, v: Value, base: Option<Value>, left: set<Value>)
    requires d <= |w|
    ensures QuietColumn(w, base, left) ==> QuietColumn(w[d..], base, left)
    ensures PutColumn(w, p, v, base, left) && p > d ==> PutColumn(w[d..], p - d, v, base, left)
    ensures DelColumn(w, p, base, left) && p > d ==> DelColumn(w[d..], p - d, base, left)
    ensures DelColumn(w, p, base, left) && p <= d ==> QuietColumn(w[d..], base, left)
  {
    assert forall i :: 0 <= i < |w| - d ==> w[d..][i] == w[i + d];
  }

  /** A PUT whose servers have all stopped leaves at most its value behind. */
  lemma PutSuffix(w: Column, d: nat, p: nat, v: Value, base: Option<Value>, left: set<Value>)
    requires d <= |w| && PutColumn(w, p, v, base, left)
    ensures QuietColumn(w[d..], base, left + {v})
    ensures Some(v) !in w[d..] ==> QuietColumn(w[d..], base, left)
  {
    assert forall i :: 0 <= i < |w| - d ==> w[d..][i] == w[i + d];
  }

  lemma Drop(w: Column, c: nat, p: nat, v: Value, base: Option<Value>, left: set<Value>)
    requires c < |w|
    ensures var r := w[..c] + w[c + 1..];
            && (QuietColumn(w, base, left) ==> QuietColumn(r, base, left))
            && (PutColumn(w, p, v, base, left) && p <= c ==> PutColumn(r, p, v, base, left))
            && (DelColumn(w, p, base, left) && p <= c ==> DelColumn(r, p, base, left))
  {
    var r := w[..c] + w[c + 1..];
    assert forall i :: 0 <= i < |r| ==> r[i] == w[if i < c then i else i + 1];
  }

  // ---------- What every run keeps ----------

  /** What the settled updates make of a key. */
  function Settled(s: State, k: Key): Option<Value> {
    At(Fold(s.settled), k)
  }

  /** What a key is worth once the update under way is through. */
  function After(s: State, k: Key): Option<Value>
    requires k in s.flying
  {
    match s.flying[k].u
    case Put(_, v) => Some(v)
    case Del(_) => None
  }

  ghost predicate KeyOk(s: State, k: Key) {
    var w, base, left := ColumnOf(s.stores, k), Settled(s, k), Left(s, k);
    if Going(s, k) then
      match s.flying[k].u
      case Put(_, v) => PutColumn(w, s.flying[k].pos, v, base, left)
      case Del(_) => DelColumn(w, s.flying[k].pos, base, left)
    else QuietColumn(w, base, left) && (k in s.flying ==> base == After(s, k) && left == {})
  }

  /** The last server has no connection that works, and every other one has a connection. */
  ghost predicate LinksOk(s: State) {
    && |s.links| == |s.stores|
    && forall i :: 0 <= i < |s.links| ==> s.links[i] != if i + 1 < |s.links| then Absent else Live
  }

  ghost predicate FlightsOk(s: State) {
    forall k :: k in s.flying ==>
      var f := s.flying[k];
      f.u.key == k && 0 < f.pos <= |s.stores| && (f.u.Put? ==> ValueOk(f.u.value))
  }

  ghost predicate Inv(s: State) {
    LinksOk(s) && FlightsOk(s) && forall k: Key :: KeyOk(s, k)
  }

  lemma ColumnUpdate(stores: seq<Store>, i: nat, m: Store, k: Key)
    requires i < |stores|
    ensures ColumnOf(stores[i := m], k) == ColumnOf(stores, k)[i := At(m, k)]
  {
  }

  lemma ColumnMerge(stores: seq<Store>, i: nat, k: Key)
    requires 0 < i < |stores|
    ensures ColumnOf(MergeInto(stores, i), k) == Merged(ColumnOf(stores, k), i)
  {
    var a, b := stores[i], stores[i - 1];
    assert At(a + b, k) == if At(b, k) == None then At(a, k) else At(b, k);
    ColumnUpdate(stores, i, a + b, k);
  }

  lemma ColumnCut(stores: seq<Store>, c: nat, k: Key)
    requires c < |stores|
    ensures ColumnOf(stores[c + 1..], k) == ColumnOf(stores, k)[c + 1..]
    ensures ColumnOf(stores[..c] + stores[c + 1..], k) == ColumnOf(stores, k)[..c] + ColumnOf(stores, k)[c + 1..]
  {
  }

  lemma ApplyAt(m: Store, u: Update, k: Key)
    ensures At(Apply(m, u), k) ==
            if k != u.key then At(m, k) else match u case Put(_, v) => Some(v) case Del(_) => None
  {
  }

  /** A step leaves a key alone whose column and flight it does not touch. */
  lemma OtherKey(s: State, t: State, k: Key)
    requires KeyOk(s, k)
    requires ColumnOf(t.stores, k) == ColumnOf(s.stores, k)
    requires Settled(t, k) == Settled(s, k) && Left(t, k) == Left(s, k)
    requires k in s.flying <==> k in t.flying
    requires k in s.flying ==> t.flying[k] == s.flying[k]
    ensures KeyOk(t, k)
  {
  }

  lemma ArriveKeepsKey(s: State, u: Update, k: Key)
    requires KeyOk(s, k) && Enabled(s, Arrive(u)) && Accepted(s.stores[0], u)
    ensures KeyOk(Do(s, Arrive(u)), k)
  {
    hide QuietColumn, PutColumn, DelColumn;
    var t := Do(s, Arrive(u));
    ColumnUpdate(s.stores, 0, Apply(s.stores[0], u), k);
    ApplyAt(s.stores[0], u, k);
    if k == u.key {
      QuietArrive(ColumnOf(s.stores, k), u, Settled(s, k), Left(s, k));
    } else {
      assert ColumnOf(t.stores, k) == ColumnOf(s.stores, k);
      OtherKey(s, t, k);
    }
  }

  lemma SettleKeepsKey(s: State, q: Key, k: Key)
    requires Inv(s) && Going(s, q)
    requires s.flying[q].pos == |s.stores| || !Accepted(s.stores[s.flying[q].pos], s.flying[q].u)
    ensures KeyOk(Settle(s, q), k)
  {
    hide QuietColumn, PutColumn, DelColumn;
    var t, f, w := Settle(s, q), s.flying[q], ColumnOf(s.stores, k);
    assert KeyOk(s, k);
    assert t.settled[..|s.settled|] == s.settled;
    ApplyAt(Fold(s.settled), f.u, k);
    if k != q {
      OtherKey(s, t, k);
    } else if f.u.Put? {
      PutForward(w, f.pos, f.u.value, Settled(s, k), Left(s, k));
    } else {
      DelForward(w, f.pos, Settled(s, k), Left(s, k));
    }
  }

  lemma AdvanceKeepsKey(s: State, q: Key, k: Key)
    requires Inv(s) && Going(s, q) && s.flying[q].pos < |s.stores|
    requires Accepted(s.stores[s.flying[q].pos], s.flying[q].u)
    requires s.links[s.flying[q].pos - 1] == Live
    ensures KeyOk(Pass(s, q), k)
  {
    hide QuietColumn, PutColumn, DelColumn;
    var t, f, w := Pass(s, q), s.flying[q], ColumnOf(s.stores, k);
    assert KeyOk(s, k);
    ColumnUpdate(s.stores, f.pos, Apply(s.stores[f.pos], f.u), k);
    ApplyAt(s.stores[f.pos], f.u, k);
    if k != q {
      assert ColumnOf(t.stores, k) == w;
      OtherKey(s, t, k);
    } else if f.u.Put? {
      PutForward(w, f.pos, f.u.value, Settled(s, k), Left(s, k));
    } else {
      DelForward(w, f.pos, Settled(s, k), Left(s, k));
    }
  }

  lemma CollapseKeepsKey(s: State, c: nat, k: Key)
    requires Inv(s) && c < |s.stores|
    ensures KeyOk(Collapse(s, c), k)
  {
    hide QuietColumn, PutColumn, DelColumn;
    var t, d, w, base, left := Collapse(s, c), c + 1, ColumnOf(s.stores, k), Settled(s, k), Left(s, k);
    assert KeyOk(s, k);
    ColumnCut(s.stores, c, k);
    assert Left(t, k) == LeftAfter(s, d, k);
    if !Going(s, k) {
      Suffix(w, d, 0, [], base, left);
    } else {
      var f := s.flying[k];
      var v := if f.u.Put? then f.u.value else [];
      Suffix(w, d, f.pos, v, base, left);
      if f.u.Put? && f.pos <= d {
        PutSuffix(w, d, f.pos, v, base, left);
        if Some(v) in w[d..] {
          var i :| 0 <= i < |w| - d && w[d..][i] == Some(v);
          assert At(s.stores[i + d], k) == Some(v);
        }
      }
    }
  }

  lemma VanishKeepsKey(s: State, c: nat, k: Key)
    requires Inv(s) && c < |s.stores| && !Awaited(s, c)
    ensures KeyOk(Vanish(s, c), k)
  {
    hide QuietColumn, PutColumn, DelColumn;
    var w, base, left := ColumnOf(s.stores, k), Settled(s, k), Left(s, k);
    assert KeyOk(s, k);
    ColumnCut(s.stores, c, k);
    if Going(s, k) {
      var f := s.flying[k];
      Drop(w, c, f.pos, if f.u.Put? then f.u.value else [], base, left);
    } else {
      Drop(w, c, 0, [], base, left);
    }
  }

  lemma MergeKeepsKey(s: State, i: nat, k: Key)
    requires KeyOk(s, k) && Enabled(s, Merge(i))
    ensures KeyOk(Do(s, Merge(i)), k)
  {
    hide QuietColumn, PutColumn, DelColumn;
    var w, base, left := ColumnOf(s.stores, k), Settled(s, k), Left(s, k);
    ColumnMerge(s.stores, i, k);
    if !Going(s, k) {
      QuietMerged(w, i, base, left);
    } else if s.flying[k].u.Put? {
      PutMerged(w, i, s.flying[k].pos, s.flying[k].u.value, base, left);
    } else {
      DelMerged(w, i, s.flying[k].pos, base, left);
    }
  }

  /** What is on its way down has been executed up to its position, and is settled when it turns back. */
  lemma ForwardKeepsInv(s: State, q: Key)
    requires Inv(s) && Enabled(s, Forward(q))
    ensures Inv(Do(s, Forward(q)))
  {
    hide KeyOk, Settle, Collapse;
    var f := s.flying[q];
    match s.links[f.pos - 1]
    case Dead => CollapseKeepsInv(s, f.pos - 1);
    case Absent => SettleKeepsInv(s, q);
    case Live =>
      if Accepted(s.stores[f.pos], f.u) {
        forall k: Key ensures KeyOk(Pass(s, q), k) {
          AdvanceKeepsKey(s, q, k);
        }
      } else {
        SettleKeepsInv(s, q);
      }
  }

  lemma SettleKeepsInv(s: State, q: Key)
    requires Inv(s) && Going(s, q)
    requires s.flying[q].pos == |s.stores| || !Accepted(s.stores[s.flying[q].pos], s.flying[q].u)
    ensures Inv(Settle(s, q))
  {
    hide KeyOk;
    forall k: Key ensures KeyOk(Settle(s, q), k) {
      SettleKeepsKey(s, q, k);
    }
  }

  lemma CollapseKeepsInv(s: State, c: nat)
    requires Inv(s) && c < |s.stores|
    ensures Inv(Collapse(s, c))
  {
    hide KeyOk;
    forall k: Key ensures KeyOk(Collapse(s, c), k) {
      CollapseKeepsKey(s, c, k);
    }
  }

  lemma VanishKeepsInv(s: State, c: nat)
    requires Inv(s) && c < |s.stores| && !Awaited(s, c)
    ensures Inv(Vanish(s, c))
  {
    hide KeyOk;
    forall k: Key ensures KeyOk(Vanish(s, c), k) {
      VanishKeepsKey(s, c, k);
    }
  }

  lemma StepKeepsInv(s: State, step: Step)
    requires Inv(s)
    ensures Inv(Do(s, step))
  {
    hide KeyOk, Collapse, Vanish, Pass;
    if Enabled(s, step) {
      var t := Do(s, step);
      match step
      case Arrive(u) =>
        if Accepted(s.stores[0], u) {
          forall k: Key ensures KeyOk(t, k) {
            ArriveKeepsKey(s, u, k);
          }
        }
      case Forward(q) => ForwardKeepsInv(s, q);
      case Reply(q) =>
        forall k: Key ensures KeyOk(t, k) {
          ReplyKeepsKey(s, q, k);
        }
      case Merge(i) =>
        forall k: Key ensures KeyOk(t, k) {
          MergeKeepsKey(s, i, k);
        }
      case Relink(i) =>
        forall k: Key ensures KeyOk(t, k) {
          OtherKey(s, t, k);
        }
      case Crash(c) =>
        if Awaited(s, c) {
          CollapseKeepsInv(s, c);
        } else {
          VanishKeepsInv(s, c);
        }
    }
  }

  lemma ReplyKeepsKey(s: State, q: Key, k: Key)
    requires KeyOk(s, k) && Enabled(s, Reply(q))
    ensures KeyOk(Do(s, Reply(q)), k)
  {
  }

  // ---------- Runs ----------

  /** Servers that agree on a history of updates, connected in a row, and nothing under way. */
  ghost predicate Initial(s: State) {
    && s.flying == map[] && s.left == map[] && LinksOk(s)
    && forall i :: 0 <= i < |s.stores| ==> s.stores[i] == Fold(s.settled)
  }

  /** Any number of servers that agree on any history can be the beginning of a run. */
  lemma AnyRowIsInitial(n: nat, history: seq<Update>)
    ensures Initial(State(seq(n, _ => Fold(history)), seq(n, i => if i + 1 < n then Live else Absent),
                          map[], history, map[]))
  {
    hide Fold;
  }

  function Run(s: State, steps: seq<Step>): State {
    if steps == [] then s else Do(Run(s, steps[..|steps| - 1]), steps[|steps| - 1])
  }

  /** The states of all runs: any interleaving of any steps. */
  ghost predicate Reachable(s: State) {
    exists start, steps :: Initial(start) && s == Run(start, steps)
  }

  lemma {:induction false} RunKeepsInv(s: State, steps: seq<Step>)
    requires Inv(s)
    ensures Inv(Run(s, steps))
  {
    if steps != [] {
      RunKeepsInv(s, steps[..|steps| - 1]);
      StepKeepsInv(Run(s, steps[..|steps| - 1]), steps[|steps| - 1]);
    }
  }

  /** Every step of a run, whatever it is, leads on to a run. */
  lemma ReachableGoesOn(s: State, step: Step)
    ensures Initial(s) ==> Reachable(s)
    ensures Reachable(s) ==> Reachable(Do(s, step))
  {
    hide Do, Initial;
    assert Run(s, []) == s;
    if Reachable(s) {
      var start, steps :| Initial(start) && s == Run(start, steps);
      assert (steps + [step])[..|steps|] == steps;
      assert Run(start, steps + [step]) == Do(s, step);
    }
  }

  lemma ReachableIsGood(s: State)
    requires Reachable(s)
    ensures Inv(s)
  {
    var start, steps :| Initial(start) && s == Run(start, steps);
    forall k: Key ensures KeyOk(start, k) {
    }
    RunKeepsInv(start, steps);
  }

  /** A forwarded PUT is never refused, nor is a DEL of a key of which no PUT was left behind. */
  lemma ForwardIsAccepted(s: State, k: Key)
    requires Reachable(s) && Going(s, k) && s.flying[k].pos < |s.stores|
    requires s.flying[k].u.Put? || Left(s, k) == {}
    ensures Accepted(s.stores[s.flying[k].pos], s.flying[k].u)
  {
    ReachableIsGood(s);
    assert KeyOk(s, k);
    assert ColumnOf(s.stores, k)[s.flying[k].pos] == At(s.stores[s.flying[k].pos], k);
  }

  /** Under every interleaving, whatever stops, an update that shows at a replica has been applied at every
      replica upstream of it. */
  lemma UpstreamFirst(s: State, k: Key, i: nat, j: nat)
    requires Reachable(s)
    requires Going(s, k) && Left(s, k) == {} && i <= j < |s.stores|
    requires At(s.stores[j], k) == After(s, k)
    ensures At(s.stores[i], k) == After(s, k)
  {
    ReachableIsGood(s);
    assert KeyOk(s, k);
    var w := ColumnOf(s.stores, k);
    assert w[j] == At(s.stores[j], k) && w[i] == At(s.stores[i], k);
  }

  /** No DEL is ever cut off: a key that a server holds is held by every server upstream of it, but for
      those that a DEL has passed which is still on its way from them to that server. */
  lemma NoDeletionIsCut(s: State, k: Key, i: nat, j: nat)
    requires Reachable(s) && i <= j < |s.stores|
    requires k in s.stores[j] && k !in s.stores[i]
    ensures Going(s, k) && s.flying[k].u == Del(k) && i < s.flying[k].pos <= j
  {
    ReachableIsGood(s);
    assert KeyOk(s, k);
    var w := ColumnOf(s.stores, k);
    assert w[j] == At(s.stores[j], k) && w[i] == At(s.stores[i], k);
  }

  /** No settled update is lost, and so no acknowledged one: while no later update of the key is under way,
      every replica has the last settled value, or that of a PUT which came later and was left behind. */
  lemma NoSettledUpdateIsLost(s: State, k: Key, i: nat)
    requires Reachable(s) && !Going(s, k) && i < |s.stores|
    ensures Usual(At(s.stores[i], k), Settled(s, k), Left(s, k))
  {
    ReachableIsGood(s);
    assert KeyOk(s, k);
    assert ColumnOf(s.stores, k)[i] == At(s.stores[i], k);
  }

  /** While an update is on its way up, and so when it is acknowledged, every replica has it. */
  lemma AcknowledgedMeansEverywhere(s: State, k: Key, i: nat)
    requires Reachable(s) && Enabled(s, Reply(k)) && i < |s.stores|
    ensures At(s.stores[i], k) == After(s, k) == Settled(s, k)
  {
    NoSettledUpdateIsLost(s, k, i);
    ReachableIsGood(s);
    assert KeyOk(s, k);
  }

  /** Whenever nothing is on its way down and no PUT was left behind, all replicas hold exactly the settled
      updates, whoever has stopped. */
  lemma QuietMeansEqual(s: State, i: nat)
    requires Reachable(s) && i < |s.stores|
    requires forall k: Key :: !Going(s, k) && Left(s, k) == {}
    ensures s.stores[i] == Fold(s.settled)
  {
    forall k: Key ensures At(s.stores[i], k) == At(Fold(s.settled), k) {
      NoSettledUpdateIsLost(s, k, i);
    }
    SameAtEveryKey(s.stores[i], Fold(s.settled));
  }

  lemma SameAtEveryKey(a: Store, b: Store)
    requires forall k: Key :: At(a, k) == At(b, k)
    ensures a == b
  {
    forall k: Key ensures k in a <==> k in b {
      assert At(a, k) == At(b, k);
    }
    forall k | k in a ensures a[k] == b[k] {
      assert At(a, k) == At(b, k);
    }
  }

  // ---------- Step by step ----------

  function Replies(k: Key, n: nat): (steps: seq<Step>)
    ensures |steps| == n
  {
    seq(n, _ => Reply(k))
  }

  function Forwards(k: Key, n: nat): (steps: seq<Step>)
    ensures |steps| == n
  {
    seq(n, _ => Forward(k))
  }

  /** An answer travels up server by server: when p servers have an update open, exactly p replies follow, each
      closes it at one server, and nothing else changes. */
  lemma {:induction false} AnswerTravelsUp(s: State, k: Key, n: nat)
    requires k in s.flying && s.flying[k].Up? && n <= s.flying[k].pos && s.flying[k].pos > 0
    ensures var f, t := s.flying[k], Run(s, Replies(k, n));
            && t == s.(flying := if n == f.pos then s.flying - {k} else s.flying[k := Up(f.u, f.pos - n)])
            && (Enabled(t, Reply(k)) <==> n < f.pos)
  {
    if n == 0 {
      assert Replies(k, n) == [];
      assert s.flying[k := s.flying[k]] == s.flying;
    } else {
      AnswerTravelsUp(s, k, n - 1);
      assert Replies(k, n)[..n - 1] == Replies(k, n - 1);
    }
  }

  /** A server that stops while an answer is on its way up takes everyone upstream with it exactly if the answer
      has not passed it, or another update is open there. */
  lemma CrashOnTheWayUp(s: State, k: Key, n: nat, c: nat)
    requires k in s.flying && s.flying[k].Up? && n <= s.flying[k].pos && s.flying[k].pos > 0
    requires c < |s.stores| == |s.links|
    ensures var t := Do(Run(s, Replies(k, n)), Crash(c));
            if c < s.flying[k].pos - n || exists q :: q in s.flying && q != k && s.flying[q].pos > c
            then t.stores == s.stores[c + 1..] && t.links == s.links[c + 1..]
            else t.stores == s.stores[..c] + s.stores[c + 1..]
  {
    hide Run;
    AnswerTravelsUp(s, k, n);
    var t := Run(s, Replies(k, n));
    if q :| q in s.flying && q != k && s.flying[q].pos > c {
      assert q in t.flying && t.flying[q].pos > c;
    }
    if c < s.flying[k].pos - n {
      assert k in t.flying && t.flying[k].pos > c;
    }
  }

  /** Over a dead connection a forward leaves exactly the servers behind it. */
  lemma DeadForward(s: State, k: Key)
    requires Enabled(s, Forward(k)) && s.links[s.flying[k].pos - 1] == Dead
    ensures var t, p := Do(s, Forward(k)), s.flying[k].pos;
            t.stores == s.stores[p..] && t.links == s.links[p..] && t.settled == s.settled && k !in t.flying
  {
  }

  /** A server for which nobody waits stops: the update that is next to be passed to it takes everyone before it
      down, and nobody else. */
  lemma CrashCutsTheWay(s: State, k: Key, c: nat)
    requires 0 < c < |s.stores| == |s.links| && s.links[c - 1] == Live && !Awaited(s, c)
    requires k in s.flying && s.flying[k].Down? && s.flying[k].pos == c
    ensures var t := Do(Do(s, Crash(c)), Forward(k));
            && t.stores == s.stores[c + 1..] && t.links == s.links[c + 1..]
            && t.flying == map[] && t.settled == s.settled
  {
    var r := Do(s, Crash(c));
    assert r.links[c - 1] == Dead;
    DeadForward(r, k);
    assert r.stores[c..] == s.stores[c + 1..] && r.links[c..] == s.links[c + 1..];
    forall q | q in s.flying ensures s.flying[q].pos <= c {
    }
  }

  /** If the server before it renews its connection first, the update goes on to the server behind, or turns
      back when there is none. */
  lemma RelinkOpensTheWay(s: State, k: Key, c: nat)
    requires 0 < c < |s.stores| == |s.links| && !Awaited(s, c)
    requires k in s.flying && s.flying[k].Down? && s.flying[k].pos == c
    requires c + 1 < |s.stores| ==> Accepted(s.stores[c + 1], s.flying[k].u)
    ensures var t, u := Do(Do(Do(s, Crash(c)), Relink(c - 1)), Forward(k)), s.flying[k].u;
            if c + 1 < |s.stores| then
              && t.stores == s.stores[..c] + [Apply(s.stores[c + 1], u)] + s.stores[c + 2..]
              && t.flying == s.flying[k := Down(u, c + 1)] && t.settled == s.settled
            else
              && t.stores == s.stores[..c]
              && t.flying == s.flying[k := Up(u, c)] && t.settled == s.settled + [u]
  {
    var r := Do(Do(s, Crash(c)), Relink(c - 1));
    assert r.stores == s.stores[..c] + s.stores[c + 1..] && r.flying == s.flying;
    assert r.links[c - 1] == if c + 1 < |s.stores| then Live else Absent;
    if c + 1 < |s.stores| {
      assert r.stores[c] == s.stores[c + 1];
    }
  }

  lemma ForwardOnce(s: State, k: Key)
    requires |s.links| == |s.stores|
    requires Going(s, k) && 0 < s.flying[k].pos < |s.stores|
    requires s.links[s.flying[k].pos - 1] == Live && Accepted(s.stores[s.flying[k].pos], s.flying[k].u)
    ensures var f := s.flying[k];
            Do(s, Forward(k)) == s.(stores := s.stores[f.pos := Apply(s.stores[f.pos], f.u)],
                                    flying := s.flying[k := Down(f.u, f.pos + 1)])
  {
  }

  /** Over connections that work, an update that nobody refuses advances one server a step. */
  lemma {:induction false} ForwardsAdvance(s: State, k: Key, m: nat)
    requires |s.links| == |s.stores|
    requires Going(s, k) && 0 < s.flying[k].pos && s.flying[k].pos + m <= |s.stores|
    requires forall j :: s.flying[k].pos - 1 <= j < s.flying[k].pos + m - 1 ==> s.links[j] == Live
    requires forall j :: s.flying[k].pos <= j < s.flying[k].pos + m ==> Accepted(s.stores[j], s.flying[k].u)
    ensures var t, f := Run(s, Forwards(k, m)), s.flying[k];
            && |t.stores| == |s.stores|
            && t == s.(stores := t.stores, flying := s.flying[k := Down(f.u, f.pos + m)])
            && forall j :: 0 <= j < |s.stores| ==>
                 t.stores[j] == if f.pos <= j < f.pos + m then Apply(s.stores[j], f.u) else s.stores[j]
  {
    hide Do, Apply, Accepted;
    if m == 0 {
      assert Forwards(k, m) == [];
      assert s.flying[k := s.flying[k]] == s.flying;
    } else {
      ForwardsAdvance(s, k, m - 1);
      assert Forwards(k, m)[..m - 1] == Forwards(k, m - 1);
      ForwardOnce(Run(s, Forwards(k, m - 1)), k);
    }
  }

  /** What servers that stop leave behind: updates that are open beyond them, as they were, and of the others
      nothing but the values of PUTs that a survivor holds. */
  lemma CollapseLeaves(s: State, c: nat, k: Key)
    requires Enabled(s, Crash(c)) && Awaited(s, c)
    ensures var t, d := Do(s, Crash(c)), c + 1;
            && (k in t.flying <==> k in s.flying && s.flying[k].pos > d)
            && (k in t.flying ==>
                  && t.flying[k].u == s.flying[k].u && t.flying[k].pos == s.flying[k].pos - d
                  && (t.flying[k].Up? <==> s.flying[k].Up?))
            && forall v :: v in Left(t, k) <==>
                 || v in Left(s, k)
                 || (Going(s, k) && s.flying[k].u == Put(s.flying[k].u.key, v) && k !in t.flying
                     && exists i :: 0 <= i < |t.stores| && At(t.stores[i], k) == Some(v))
  {
    var t, d := Do(s, Crash(c)), c + 1;
    assert Left(t, k) == LeftAfter(s, d, k);
    assert forall i :: 0 <= i < |t.stores| ==> t.stores[i] == s.stores[i + d];
    if Going(s, k) && s.flying[k].u.Put? {
      var v := s.flying[k].u.value;
      if i :| d <= i < |s.stores| && At(s.stores[i], k) == Some(v) {
        assert t.stores[i - d] == s.stores[i];
      }
    }
  }

  /** An update that is open beyond the servers that stop still reaches every survivor. */
  lemma WhatIsBehindGoesOn(s: State, k: Key, c: nat, m: nat, i: nat)
    requires Reachable(s) && |s.links| == |s.stores| && Going(s, k)
    requires c + 1 < s.flying[k].pos && s.flying[k].pos + m == |s.stores|
    requires s.flying[k].u.Put? || Left(s, k) == {}
    requires forall j :: s.flying[k].pos - 1 <= j < |s.stores| - 1 ==> s.links[j] == Live
    ensures var t := Run(Do(s, Crash(c)), Forwards(k, m));
            && |t.stores| == |s.stores| - c - 1
            && (i < |t.stores| ==> At(t.stores[i], k) == After(s, k))
  {
    ReachableIsGood(s);
    var t, f, d, n := Do(s, Crash(c)), s.flying[k], c + 1, |s.stores|;
    assert Awaited(s, c);
    CollapseLeaves(s, c, k);
    StepKeepsInv(s, Crash(c));
    forall j | f.pos <= j < n ensures Accepted(s.stores[j], f.u) {
      StillThere(s, k, j);
    }
    assert t.stores == s.stores[d..] && t.links == s.links[d..];
    hide Run, Do, Apply, Accepted;
    ForwardsAdvance(t, k, m);
    if i < n - d {
      Arrived(t, k, i);
    }
  }

  /** What an update makes of a server, be it one that has executed it or one that it has still to reach. */
  lemma Arrived(s: State, k: Key, i: nat)
    requires Inv(s) && Going(s, k) && i < |s.stores|
    ensures At(if s.flying[k].pos <= i then Apply(s.stores[i], s.flying[k].u) else s.stores[i], k) == After(s, k)
  {
    assert KeyOk(s, k);
    ApplyAt(s.stores[i], s.flying[k].u, k);
    assert ColumnOf(s.stores, k)[i] == At(s.stores[i], k);
  }

  /** No server that an update has not reached refuses it. */
  lemma StillThere(s: State, k: Key, j: nat)
    requires Inv(s) && Going(s, k) && s.flying[k].pos <= j < |s.stores|
    requires s.flying[k].u.Put? || Left(s, k) == {}
    ensures Accepted(s.stores[j], s.flying[k].u)
  {
    assert KeyOk(s, k);
    assert ColumnOf(s.stores, k)[j] == At(s.stores[j], k);
  }

  /** Two updates can be under way at once, and the later one can be ahead: a run in which PUT 1 has been executed
      by the head and PUT 2, which came after it, by both servers. */
  lemma LaterUpdateAhead()
    ensures var u, w := Put([1], [7]), Put([2], [8]);
            var one: Store, both: Store := map[[2] := [8]], map[[1] := [7], [2] := [8]];
            Reachable(State([both, one], [Live, Absent], map[[1] := Down(u, 1), [2] := Down(w, 2)], [], map[]))
  {
    var u, w := Put([1], [7]), Put([2], [8]);
    var m: Store, none: Store := map[[1] := [7]], map[];
    var start := State([none, none], [Live, Absent], map[], [], map[]);
    var s1 := start.(stores := [m, none], flying := map[[1] := Down(u, 1)]);
    var s2 := s1.(stores := [m[[2] := [8]], none], flying := map[[1] := Down(u, 1), [2] := Down(w, 1)]);
    assert Do(start, Arrive(u)) == s1 by {
      assert start.stores[0 := m] == s1.stores && start.flying[[1] := Down(u, 1)] == s1.flying;
    }
    assert Do(s1, Arrive(w)) == s2 by {
      assert s1.stores[0 := m[[2] := [8]]] == s2.stores && s1.flying[[2] := Down(w, 1)] == s2.flying;
    }
    var both: Store, one: Store := map[[1] := [7], [2] := [8]], map[[2] := [8]];
    var s3 := State([both, one], [Live, Absent], map[[1] := Down(u, 1), [2] := Down(w, 2)], [], map[]);
    assert Do(s2, Forward([2])) == s3 by {
      ForwardOnce(s2, [2]);
      assert Apply(none, w) == one && m[[2] := [8]] == both;
      assert s2.stores[1 := one] == s3.stores && s2.flying[[2] := Down(w, 2)] == s3.flying;
    }
    hide Do;
    var steps := [Arrive(u), Arrive(w), Forward([2])];
    assert steps[..2] == [Arrive(u), Arrive(w)] && steps[..2][..1] == [Arrive(u)] && steps[..2][..1][..0] == [];
    assert Run(start, []) == start;
    assert Run(start, steps[..2][..1]) == s1 && Run(start, steps[..2]) == s2;
    assert Run(start, steps) == s3;
    assert Initial(start);
  }

  // ---------- Two updates of one key ----------

  /** The same key twice under way, and the second request overtakes the first behind the head: it is
      delivered there r times before the first one and, as long as it is refused, t times after it. The
      replicas end up equal exactly if both requests are the same update, or if the first puts a key that
      the servers did not hold, the second deletes it, and a retry is still left when the key arrives. */
  lemma OvertakingAgreesExactly(m: Store, behind: seq<Store>, u: Update, w: Update, r: nat, t: nat)
    requires behind != [] && forall i :: 0 <= i < |behind| ==> behind[i] == m
    requires u.key == w.key && Accepted(m, u) && Accepted(Apply(m, u), w)
    requires r > 0 && (t > 0 ==> !Accepted(m, w))
    ensures var head := Apply(Apply(m, u), w);
            var others := Repeat(Propagate(Repeat(behind, w, r), u), w, t);
            (forall i :: 0 <= i < |others| ==> others[i] == head) <==>
            u == w || (u.Put? && u.key !in m && w.Del? && t > 0)
  {
    hide Propagate, Repeat;
    var head := Apply(Apply(m, u), w);
    RepeatIsOnce(behind, w, r);
    var first := Propagate(behind, w);
    var second := Propagate(first, u);
    var others := Repeat(second, w, t);
    RepeatNone(second, w);
    if t > 0 {
      RefusedAtOnce(behind, w);
      PropagateReachesAPrefix(behind, u, |behind|);
      RepeatIsOnce(second, w, t);
      PropagateReachesAPrefix(second, w, |behind|);
    } else if u == w {
      RetryIsHarmless(behind, u);
      PropagateReachesAPrefix(behind, u, |behind|);
      assert Apply(Apply(m, u), u) == Apply(m, u);
    } else {
      OvertakenDiffers(m, behind, u, w);
      assert others[0] != head;
    }
  }

  lemma RepeatNone(stores: seq<Store>, u: Update)
    ensures Repeat(stores, u, 0) == stores
  {
  }

  /** Delivered once each in opposite orders, two different updates of a key leave different values. */
  lemma OvertakenDiffers(m: Store, behind: seq<Store>, u: Update, w: Update)
    requires behind != [] && behind[0] == m && u != w
    requires u.key == w.key && Accepted(m, u) && Accepted(Apply(m, u), w)
    ensures Propagate(Propagate(behind, w), u)[0] != Apply(Apply(m, u), w)
  {
    hide Propagate;
    PropagateStep(m, behind[1..], w);
    assert behind == [m] + behind[1..];
    var first := Propagate(behind, w);
    PropagateStep(first[0], first[1..], u);
    assert first == [first[0]] + first[1..] && Accepted(first[0], u);
    ApplyAt(Apply(m, u), w, u.key);
    ApplyAt(first[0], u, u.key);
    assert At(Apply(first[0], u), u.key) != At(Apply(Apply(m, u), w), u.key);
  }

  // ---------- A merge that is not atomic ----------

  /** A server with a part of its predecessor's store fetches that store, then an accepted update passes
      both of them, and only then are the fetched entries put: the two agree exactly if the update put a
      new key or changed nothing. */
  lemma OverlappedMergeAgreesExactly(fetched: Store, own: Store, u: Update)
    requires own.Keys <= fetched.Keys && Accepted(fetched, u)
    ensures Apply(own, u) + fetched == Apply(fetched, u) <==>
            u.Put? && (u.key in fetched ==> fetched[u.key] == u.value)
  {
    var merged, pred := Apply(own, u) + fetched, Apply(fetched, u);
    forall k: Key ensures At(merged, k) == if k in fetched then Some(fetched[k]) else At(Apply(own, u), k) {
      assert At(Apply(own, u) + fetched, k) == if k in fetched then At(fetched, k) else At(Apply(own, u), k);
    }
    if u.Put? && (u.key in fetched ==> fetched[u.key] == u.value) {
      forall k: Key ensures At(merged, k) == At(pred, k) {
        ApplyAt(own, u, k);
        ApplyAt(fetched, u, k);
      }
      SameAtEveryKey(merged, pred);
    } else {
      assert At(merged, u.key) == Some(fetched[u.key]);
      ApplyAt(fetched, u, u.key);
      assert At(merged, u.key) != At(pred, u.key);
    }
  }

  // ---------- Inputs at which replicas end up different ----------

  /** PUT 7 and PUT 8 of one key arrive in this order at the head and in the other order at the tail. */
  lemma OvertakenPutIsLost()
    ensures var u, w := Put([1], [7]), Put([1], [8]);
            && Apply(Apply(map[], u), w) == map[[1] := [8]]
            && Propagate(Propagate([map[]], w), u) == [map[[1] := [7]]]
  {
    var u, w := Put([1], [7]), Put([1], [8]);
    var m: Store, eight: Store := map[], map[[1] := [8]];
    var none: seq<Store> := [];
    PropagateStep(m, none, w);
    PropagateStep(eight, none, u);
    assert [m] + none == [m] && [eight] + none == [eight];
    assert Apply(m, w) == eight && Propagate(none, w) == none && Propagate(none, u) == none;
    assert Propagate([m], w) == [eight];
    assert Apply(eight, u) == map[[1] := [7]];
  }

  /** A joining server fetches {k: 7}; before it puts it, PUT 8 of the same key, or its DEL, passes both
      servers. The old value, or the deleted key, is back. */
  lemma OverlappedMergeBringsBack()
    ensures var fetched: Store, k: Key := map[[1] := [7]], [1];
            && Apply(map[], Put(k, [8])) + fetched == map[k := [7]] != Apply(fetched, Put(k, [8]))
            && Apply(map[], Del(k)) + fetched == map[k := [7]] != Apply(fetched, Del(k))
  {
    var fetched: Store, k: Key := map[[1] := [7]], [1];
    assert Apply(map[], Put(k, [8])) + fetched == fetched;
    assert Apply(map[], Del(k)) + fetched == fetched;
    assert Apply(fetched, Put(k, [8]))[k] == [8] && k !in Apply(fetched, Del(k));
  }
}
