/**
 Ranks from `priority_over` edges by repeatedly taking off the nodes that nothing left precedes
 (computePriorityRank, src/core/planner/next-task.ts:295-344).
 */
module PriorityRank {
  import opened ColonyGraph

  predicate Relevant(e: Edge, ids: set<string>) {
    e.relation == PriorityOver && e.source in ids && e.target in ids
  }

  function RelevantEdges(edges: seq<Edge>, ids: set<string>): seq<Edge> {
    if edges == [] then []
    else (if Relevant(edges[0], ids) then [edges[0]] else []) + RelevantEdges(edges[1..], ids)
  }

  lemma {:induction false} RelevantMembers(edges: seq<Edge>, ids: set<string>)
    ensures forall e :: e in RelevantEdges(edges, ids) <==> e in edges && Relevant(e, ids)
  {
    if edges == [] {
    } else {
      assert edges == [edges[0]] + edges[1..];
      RelevantMembers(edges[1..], ids);
    }
  }

  // ---------------------------------------------------------------------------
  // Levels
  // ---------------------------------------------------------------------------

  /** How many edges still lead into `id` when the sources in `done` are taken off. */
  function Pending(es: seq<Edge>, id: string, done: set<string>): nat {
    if es == [] then 0
    else (if es[0].target == id && es[0].source !in done then 1 else 0) + Pending(es[1..], id, done)
  }

  /** The targets of the edges that leave `id`, in edge order. */
  function Targets(es: seq<Edge>, id: string): seq<string> {
    if es == [] then []
    else if es[0].source == id then [es[0].target] + Targets(es[1..], id)
    else Targets(es[1..], id)
  }

  function Count(xs: seq<string>, x: string): nat {
    if xs == [] then 0 else (if xs[0] == x then 1 else 0) + Count(xs[1..], x)
  }

  lemma {:induction false} PendingZeroIff(es: seq<Edge>, id: string, done: set<string>)
    ensures Pending(es, id, done) == 0 <==> forall e <- es | e.target == id :: e.source in done
  {
    if es == [] {
    } else {
      assert es == [es[0]] + es[1..];
      PendingZeroIff(es[1..], id, done);
    }
  }

  /** Taking off one more source takes off its edges. */
  lemma {:induction false} PendingWithout(es: seq<Edge>, x: string, done: set<string>, id: string)
    requires id !in done
    ensures Pending(es, x, done + {id}) == Pending(es, x, done) - Count(Targets(es, id), x)
  {
    if es == [] {
    } else {
      PendingWithout(es[1..], x, done, id);
    }
  }

  lemma {:induction false} PendingShrinks(es: seq<Edge>, x: string, a: set<string>, b: set<string>)
    requires a <= b
    ensures Pending(es, x, b) <= Pending(es, x, a)
  {
    if es == [] {
    } else {
      PendingShrinks(es[1..], x, a, b);
    }
  }

  /** The ids that `n` rounds of taking off have reached. */
  ghost function Settled(es: seq<Edge>, ids: set<string>, n: nat): set<string> {
    if n == 0 then {} else set id | id in ids && Pending(es, id, Settled(es, ids, n - 1)) == 0
  }

  lemma {:induction false} SettledGrows(es: seq<Edge>, ids: set<string>, n: nat)
    ensures Settled(es, ids, n) <= Settled(es, ids, n + 1)
  {
    if n == 0 {
    } else {
      SettledGrows(es, ids, n - 1);
      forall id | id in Settled(es, ids, n) ensures id in Settled(es, ids, n + 1) {
        PendingShrinks(es, id, Settled(es, ids, n - 1), Settled(es, ids, n));
      }
    }
  }

  /** Once a round reaches nobody new, no later one does. */
  lemma {:induction false} SettledStops(es: seq<Edge>, ids: set<string>, n: nat, m: nat)
    requires n <= m && Settled(es, ids, n + 1) == Settled(es, ids, n)
    ensures Settled(es, ids, m) == Settled(es, ids, n)
    decreases m
  {
    if n == m {
    } else {
      SettledStops(es, ids, n, m - 1);
    }
  }

  lemma {:induction false} SettledInOrder(es: seq<Edge>, ids: set<string>, n: nat, m: nat)
    requires n <= m
    ensures Settled(es, ids, n) <= Settled(es, ids, m)
    decreases m
  {
    if n == m {
    } else {
      SettledInOrder(es, ids, n, m - 1);
      SettledGrows(es, ids, m - 1);
    }
  }

  /** Round `k + 1` is the first to reach the id. */
  ghost predicate AtLevel(es: seq<Edge>, ids: set<string>, id: string, k: nat) {
    id in Settled(es, ids, k + 1) && id !in Settled(es, ids, k)
  }

  /** The rank of an id is the number of rounds before the one that takes it off; ids never taken off have none. */
  ghost predicate RanksLevels(rank: map<string, nat>, es: seq<Edge>, ids: set<string>) {
    forall id, k: nat :: AtLevel(es, ids, id, k) <==> id in rank && rank[id] == k
  }

  // ---------------------------------------------------------------------------
  // Ids behind cycles
  // ---------------------------------------------------------------------------

  ghost predicate PrecededIn(es: seq<Edge>, ids: set<string>, id: string) {
    exists e <- es :: e.target == id && e.source in ids
  }

  /** Each of the ids is preceded by one of them: the ids on a cycle, and ids that a cycle leads to. */
  ghost predicate Circular(es: seq<Edge>, ids: set<string>) {
    forall id | id in ids :: PrecededIn(es, ids, id)
  }

  lemma CircularKeepsWaiting(es: seq<Edge>, circle: set<string>, done: set<string>, id: string)
    requires Circular(es, circle) && done !! circle && id in circle
    ensures Pending(es, id, done) > 0
  {
    var e :| e in es && e.target == id && e.source in circle;
    PendingZeroIff(es, id, done);
  }

  lemma {:induction false} CircularNeverSettles(es: seq<Edge>, ids: set<string>, circle: set<string>, n: nat)
    requires Circular(es, circle)
    ensures Settled(es, ids, n) !! circle
  {
    if n == 0 {
    } else {
      CircularNeverSettles(es, ids, circle, n - 1);
      forall id | id in circle ensures id !in Settled(es, ids, n) {
        CircularKeepsWaiting(es, circle, Settled(es, ids, n - 1), id);
      }
    }
  }

  /** An id that settles at all settles at some level. */
  lemma {:induction false} SettledHasLevel(es: seq<Edge>, ids: set<string>, id: string, n: nat) returns (k: nat)
    requires id in Settled(es, ids, n)
    ensures k < n && AtLevel(es, ids, id, k)
  {
    k := n - 1;
    if id in Settled(es, ids, k) { k := SettledHasLevel(es, ids, id, k); }
  }

  lemma SourcesRankLower(es: seq<Edge>, ids: set<string>, rank: map<string, nat>, id: string, e: Edge)
    requires RanksLevels(rank, es, ids) && id in rank && e in es && e.target == id
    ensures e.source in rank && rank[e.source] < rank[id]
  {
    assert AtLevel(es, ids, id, rank[id]);
    PendingZeroIff(es, id, Settled(es, ids, rank[id]));
    var k := SettledHasLevel(es, ids, e.source, rank[id]);
  }

  /**
   An id is ranked behind every id that has priority over it, and right behind one of them: its rank is
   the length of the longest chain of priority edges that leads to it.
   */
  lemma RankFollowsEdges(edges: seq<Edge>, ids: set<string>, rank: map<string, nat>, id: string)
    requires RanksLevels(rank, RelevantEdges(edges, ids), ids) && id in rank
    ensures forall e <- edges | e.relation == PriorityOver && e.target == id && e.source in ids ::
              e.source in rank && rank[e.source] < rank[id]
    ensures rank[id] > 0 ==>
              exists e <- edges :: e.relation == PriorityOver && e.target == id && e.source in ids
                                   && e.source in rank && rank[e.source] == rank[id] - 1
  {
    var es, level := RelevantEdges(edges, ids), rank[id];
    RelevantMembers(edges, ids);
    assert AtLevel(es, ids, id, level);
    forall e | e in edges && e.relation == PriorityOver && e.target == id && e.source in ids
      ensures e.source in rank && rank[e.source] < level
    {
      SourcesRankLower(es, ids, rank, id, e);
    }
    if level > 0 {
      PendingZeroIff(es, id, Settled(es, ids, level - 1));
      PendingZeroIff(es, id, Settled(es, ids, level));
      var e :| e in es && e.target == id && e.source !in Settled(es, ids, level - 1);
      assert AtLevel(es, ids, e.source, level - 1);
    }
  }

  /** A round by which every source that is ranked has been taken off. */
  lemma {:induction false} RankedSourcesSettle(es: seq<Edge>, all: seq<Edge>, ids: set<string>, rank: map<string, nat>)
    returns (n: nat)
    requires RanksLevels(rank, all, ids)
    ensures forall e <- es | e.source in rank :: e.source in Settled(all, ids, n)
  {
    n := 0;
    if es == [] {
    } else {
      var rest := RankedSourcesSettle(es[1..], all, ids, rank);
      assert es == [es[0]] + es[1..];
      n := rest;
      if es[0].source in rank {
        var k := rank[es[0].source] + 1;
        assert AtLevel(all, ids, es[0].source, k - 1);
        n := if rest < k then k else rest;
        SettledInOrder(all, ids, k, n);
      }
      SettledInOrder(all, ids, rest, n);
    }
  }

  lemma UnrankedIsPreceded(es: seq<Edge>, ids: set<string>, rank: map<string, nat>, id: string)
    requires RanksLevels(rank, es, ids) && id in ids && id !in rank && forall e <- es :: e.source in ids
    ensures PrecededIn(es, ids - rank.Keys, id)
  {
    var n := RankedSourcesSettle(es, es, ids, rank);
    if !PrecededIn(es, ids - rank.Keys, id) {
      PendingZeroIff(es, id, Settled(es, ids, n));
      var k := SettledHasLevel(es, ids, id, n + 1);
    }
  }

  /** Exactly the ids on a cycle or behind one are left without a rank. */
  lemma UnrankedIffBehindCycle(es: seq<Edge>, ids: set<string>, rank: map<string, nat>, id: string)
    requires RanksLevels(rank, es, ids) && id in ids && forall e <- es :: e.source in ids
    ensures id !in rank <==> exists circle :: circle <= ids && id in circle && Circular(es, circle)
  {
    if id !in rank {
      var circle := ids - rank.Keys;
      forall x | x in circle ensures PrecededIn(es, circle, x) { UnrankedIsPreceded(es, ids, rank, x); }
      assert Circular(es, circle);
    } else {
      assert AtLevel(es, ids, id, rank[id]);
      forall circle | Circular(es, circle) ensures id !in circle {
        CircularNeverSettles(es, ids, circle, rank[id] + 1);
      }
    }
  }

  // ---------------------------------------------------------------------------
  // The algorithm
  // ---------------------------------------------------------------------------

  ghost predicate Distinct(xs: seq<string>) {
    forall i, j | 0 <= i < j < |xs| :: xs[i] != xs[j]
  }

  ghost predicate Counts(inDegree: map<string, int>, es: seq<Edge>, ids: set<string>, done: set<string>) {
    inDegree.Keys == ids && forall id | id in ids :: inDegree[id] == Pending(es, id, done)
  }

  ghost predicate Lists(adj: map<string, seq<string>>, es: seq<Edge>, ids: set<string>) {
    adj.Keys == ids && forall id | id in ids :: adj[id] == Targets(es, id)
  }

  lemma {:induction false} OneMoreEdge(es: seq<Edge>, e: Edge, id: string)
    ensures Pending(es + [e], id, {}) == Pending(es, id, {}) + if e.target == id then 1 else 0
    ensures Targets(es + [e], id) == if e.source == id then Targets(es, id) + [e.target] else Targets(es, id)
  {
    if es == [] {
      assert es + [e] == [e] && [e][1..] == [];
    } else {
      assert (es + [e])[1..] == es[1..] + [e];
      OneMoreEdge(es[1..], e, id);
    }
  }

  lemma OneMoreCount(es: seq<Edge>, ids: set<string>, inDegree: map<string, int>, e: Edge)
    requires e.target in ids && Counts(inDegree, es, ids, {})
    ensures Counts(inDegree[e.target := inDegree[e.target] + 1], es + [e], ids, {})
  {
    forall id ensures Pending(es + [e], id, {}) == Pending(es, id, {}) + if e.target == id then 1 else 0 {
      OneMoreEdge(es, e, id);
    }
  }

  lemma OneMoreTarget(es: seq<Edge>, ids: set<string>, adj: map<string, seq<string>>, e: Edge)
    requires e.source in ids && Lists(adj, es, ids)
    ensures Lists(adj[e.source := adj[e.source] + [e.target]], es + [e], ids)
  {
    forall id
      ensures Targets(es + [e], id) == if e.source == id then Targets(es, id) + [e.target] else Targets(es, id)
    {
      OneMoreEdge(es, e, id);
    }
  }

  method BuildGraph(es: seq<Edge>, ids: set<string>)
    returns (inDegree: map<string, int>, adj: map<string, seq<string>>)
    requires forall e <- es :: e.source in ids && e.target in ids
    ensures Counts(inDegree, es, ids, {}) && Lists(adj, es, ids)
  {
    inDegree := map id | id in ids :: 0;
    adj := map id | id in ids :: [];
    var i := 0;
    while i < |es|
      invariant 0 <= i <= |es|
      invariant Counts(inDegree, es[..i], ids, {}) && Lists(adj, es[..i], ids)
    {
      assert es[i] in es && es[..i + 1] == es[..i] + [es[i]];
      OneMoreCount(es[..i], ids, inDegree, es[i]);
      OneMoreTarget(es[..i], ids, adj, es[i]);
      adj := adj[es[i].source := adj[es[i].source] + [es[i].target]];
      inDegree := inDegree[es[i].target := inDegree[es[i].target] + 1];
      i := i + 1;
    }
    assert es[..i] == es;
  }

  /** Every count is lowered by the neighbours passed so far, those before the rest. */
  ghost predicate LoweredBy(lowered: map<string, int>, inDegree: map<string, int>, all: seq<string>, rest: seq<string>)
  {
    && lowered.Keys == inDegree.Keys
    && forall x <- inDegree.Keys :: lowered[x] - Count(rest, x) == inDegree[x] - Count(all, x)
  }

  lemma LoweredOnce(lowered: map<string, int>, inDegree: map<string, int>, all: seq<string>, rest: seq<string>)
    requires LoweredBy(lowered, inDegree, all, rest) && rest != [] && rest[0] in inDegree
    ensures LoweredBy(lowered[rest[0] := lowered[rest[0]] - 1], inDegree, all, rest[1..])
  {
  }

  lemma StillWaits(lowered: map<string, int>, inDegree: map<string, int>, all: seq<string>, rest: seq<string>)
    requires LoweredBy(lowered, inDegree, all, rest) && rest != [] && rest[0] in inDegree
    requires Count(all, rest[0]) <= inDegree[rest[0]] && Count(rest, rest[0]) <= Count(all, rest[0])
    ensures 0 < lowered[rest[0]] <= inDegree[rest[0]]
  {
  }

  lemma {:induction false} CountOfSuffix(xs: seq<string>, j: nat, x: string)
    requires j <= |xs|
    ensures Count(xs[j..], x) <= Count(xs, x)
  {
    if j == 0 {
    } else {
      CountOfSuffix(xs[1..], j - 1, x);
      assert xs[1..][j - 1..] == xs[j..];
    }
  }

  /** The queue holds, once each, what it held before and what has come down to zero since. */
  ghost predicate QueuedBy(
    queued: seq<string>, queue: seq<string>, inDegree: map<string, int>, lowered: map<string, int>)
    requires lowered.Keys == inDegree.Keys
  {
    Distinct(queued)
    && forall x :: x in queued <==> x in queue || (x in inDegree && inDegree[x] > 0 && lowered[x] == 0)
  }

  lemma QueuedOnce(queued: seq<string>, queue: seq<string>, inDegree: map<string, int>, lowered: map<string, int>,
                   x: string)
    requires lowered.Keys == inDegree.Keys && QueuedBy(queued, queue, inDegree, lowered)
    requires x in inDegree && 0 < lowered[x] <= inDegree[x] && x !in queue
    ensures QueuedBy(if lowered[x] == 1 then queued + [x] else queued, queue, inDegree, lowered[x := lowered[x] - 1])
  {
  }

  /** Lowers the count of every neighbour and queues those that come down to zero. */
  method Release(inDegree: map<string, int>, neighbors: seq<string>, queue: seq<string>)
    returns (lowered: map<string, int>, queued: seq<string>)
    requires forall x <- neighbors :: x in inDegree
    requires forall x <- inDegree.Keys :: Count(neighbors, x) <= inDegree[x]
    requires Distinct(queue) && forall x <- queue :: x in inDegree && inDegree[x] == 0
    ensures LoweredBy(lowered, inDegree, neighbors, []) && QueuedBy(queued, queue, inDegree, lowered)
  {
    lowered, queued := inDegree, queue;
    var j := 0;
    assert neighbors[j..] == neighbors;
    while j < |neighbors|
      invariant 0 <= j <= |neighbors| && LoweredBy(lowered, inDegree, neighbors, neighbors[j..])
      invariant QueuedBy(queued, queue, inDegree, lowered)
    {
      var x := neighbors[j];
      assert neighbors[j..][1..] == neighbors[j + 1..];
      CountOfSuffix(neighbors, j, x);
      StillWaits(lowered, inDegree, neighbors, neighbors[j..]);
      LoweredOnce(lowered, inDegree, neighbors, neighbors[j..]);
      QueuedOnce(queued, queue, inDegree, lowered, x);
      lowered := lowered[x := lowered[x] - 1];
      if lowered[x] == 0 { queued := queued + [x]; }
      j := j + 1;
    }
  }

  ghost function IdSet(ids: seq<string>): set<string> {
    set id | id in ids
  }

  lemma IdSetSnoc(ids: seq<string>, id: string)
    ensures IdSet(ids + [id]) == IdSet(ids) + {id}
  {
  }

  /** The queue holds, once each, the ids outside `closed` that wait for nobody; those inside do not wait either. */
  ghost predicate Queues(queue: seq<string>, closed: set<string>, inDegree: map<string, int>, ids: set<string>)
    requires inDegree.Keys == ids
  {
    && Distinct(queue) && (forall x :: x in queue <==> x in ids && x !in closed && inDegree[x] == 0)
    && closed <= ids && forall x <- closed :: inDegree[x] == 0
  }

  /** One pass of the loop body for one id of the batch. */
  lemma ReleaseIsExact(es: seq<Edge>, ids: set<string>, inDegree: map<string, int>, done: set<string>, id: string)
    requires Counts(inDegree, es, ids, done) && id !in done
    ensures forall x <- ids :: Count(Targets(es, id), x) <= inDegree[x]
    ensures forall x <- ids :: Pending(es, x, done + {id}) == inDegree[x] - Count(Targets(es, id), x)
  {
    forall x | x in ids
      ensures Pending(es, x, done + {id}) == inDegree[x] - Count(Targets(es, id), x)
    {
      PendingWithout(es, x, done, id);
    }
  }

  lemma {:induction false} TargetsAreIds(es: seq<Edge>, ids: set<string>, id: string)
    requires forall e <- es :: e.target in ids
    ensures forall x <- Targets(es, id) :: x in ids
  {
    if es == [] {
    } else {
      assert es == [es[0]] + es[1..];
      TargetsAreIds(es[1..], ids, id);
    }
  }

  /** Takes off one id: what it precedes waits for one less. */
  method TakeOne(ghost es: seq<Edge>, ghost ids: set<string>, ghost done: set<string>, ghost closed: set<string>,
                 inDegree: map<string, int>, neighbors: seq<string>, queue: seq<string>, ghost id: string)
    returns (lowered: map<string, int>, queued: seq<string>)
    requires (forall e <- es :: e.target in ids) && id !in done && neighbors == Targets(es, id)
    requires Counts(inDegree, es, ids, done) && Queues(queue, closed, inDegree, ids)
    ensures Counts(lowered, es, ids, done + {id}) && Queues(queued, closed, lowered, ids)
  {
    ReleaseIsExact(es, ids, inDegree, done, id);
    TargetsAreIds(es, ids, id);
    lowered, queued := Release(inDegree, neighbors, queue);
  }

  /** The ids in `taken` have got the current rank. */
  ghost predicate RankedTo(ranked: map<string, nat>, rank: map<string, nat>, taken: set<string>, current: nat) {
    ranked.Keys == rank.Keys + taken && forall x <- ranked.Keys :: ranked[x] == if x in rank then rank[x] else current
  }

  lemma RankedOneMore(ranked: map<string, nat>, rank: map<string, nat>, batch: seq<string>, b: nat, current: nat)
    requires Distinct(batch) && b < |batch| && batch[b] !in rank
    requires RankedTo(ranked, rank, IdSet(batch[..b]), current)
    ensures batch[b] !in ranked && ranked[batch[b] := current].Keys == ranked.Keys + {batch[b]}
    ensures RankedTo(ranked[batch[b] := current], rank, IdSet(batch[..b + 1]), current)
  {
    IdSetSnoc(batch[..b], batch[b]);
    assert batch[..b + 1] == batch[..b] + [batch[b]];
  }

  /** Ranks a whole batch and queues the ids it leaves without a predecessor. */
  method TakeLevel(ghost es: seq<Edge>, ghost ids: set<string>, rank: map<string, nat>, inDegree: map<string, int>,
                   adj: map<string, seq<string>>, batch: seq<string>, current: nat)
    returns (ranked: map<string, nat>, lowered: map<string, int>, queue: seq<string>)
    requires forall e <- es :: e.target in ids
    requires Counts(inDegree, es, ids, rank.Keys) && Lists(adj, es, ids) && Queues(batch, rank.Keys, inDegree, ids)
    ensures RankedTo(ranked, rank, IdSet(batch), current)
    ensures Counts(lowered, es, ids, ranked.Keys) && Queues(queue, ranked.Keys, lowered, ids)
  {
    ranked, lowered, queue := rank, inDegree, [];
    ghost var closed := rank.Keys + IdSet(batch);
    var b := 0;
    while b < |batch|
      invariant 0 <= b <= |batch|
      invariant RankedTo(ranked, rank, IdSet(batch[..b]), current)
      invariant Counts(lowered, es, ids, ranked.Keys) && Queues(queue, closed, lowered, ids)
    {
      var id := batch[b];
      assert id in batch;
      RankedOneMore(ranked, rank, batch, b, current);
      lowered, queue := TakeOne(es, ids, ranked.Keys, closed, lowered, adj[id], queue, id);
      ranked := ranked[id := current];
      b := b + 1;
    }
    assert batch[..b] == batch;
  }

  ghost predicate RankedSoFar(rank: map<string, nat>, es: seq<Edge>, ids: set<string>, current: nat) {
    && rank.Keys == Settled(es, ids, current)
    && forall id <- rank.Keys ::
         rank[id] < current && AtLevel(es, ids, id, rank[id])
  }

  lemma NextLevel(es: seq<Edge>, ids: set<string>, rank: map<string, nat>, inDegree: map<string, int>,
                  queue: seq<string>, current: nat)
    requires rank.Keys == Settled(es, ids, current)
    requires Counts(inDegree, es, ids, rank.Keys) && Queues(queue, rank.Keys, inDegree, ids)
    ensures IdSet(queue) == Settled(es, ids, current + 1) - Settled(es, ids, current)
    ensures Settled(es, ids, current) <= Settled(es, ids, current + 1)
  {
    SettledGrows(es, ids, current);
  }

  lemma LevelRanked(es: seq<Edge>, ids: set<string>, rank: map<string, nat>, ranked: map<string, nat>, current: nat)
    requires RankedSoFar(rank, es, ids, current)
    requires Settled(es, ids, current) <= Settled(es, ids, current + 1)
    requires RankedTo(ranked, rank, Settled(es, ids, current + 1) - Settled(es, ids, current), current)
    ensures RankedSoFar(ranked, es, ids, current + 1)
  {
  }

  /** An id settles at one round only. */
  lemma OneLevel(es: seq<Edge>, ids: set<string>, id: string, j: nat, k: nat)
    requires AtLevel(es, ids, id, j) && AtLevel(es, ids, id, k)
    ensures j == k
  {
    if j < k { SettledInOrder(es, ids, j + 1, k); }
    if k < j { SettledInOrder(es, ids, k + 1, j); }
  }

  lemma LevelIsReached(es: seq<Edge>, ids: set<string>, id: string, k: nat, current: nat)
    requires Settled(es, ids, current + 1) == Settled(es, ids, current)
    requires id in Settled(es, ids, k + 1)
    ensures id in Settled(es, ids, current)
  {
    if current <= k { SettledStops(es, ids, current, k + 1); } else { SettledInOrder(es, ids, k + 1, current); }
  }

  lemma AllRanked(es: seq<Edge>, ids: set<string>, rank: map<string, nat>, current: nat)
    requires RankedSoFar(rank, es, ids, current)
    requires Settled(es, ids, current + 1) == Settled(es, ids, current)
    ensures RanksLevels(rank, es, ids)
  {
    forall id, k: nat | AtLevel(es, ids, id, k)
      ensures id in rank && rank[id] == k
    {
      LevelIsReached(es, ids, id, k, current);
      OneLevel(es, ids, id, rank[id], k);
    }
  }

  /** Where the loop stands after `current` rounds. */
  ghost predicate Standing(es: seq<Edge>, ids: set<string>, rank: map<string, nat>, inDegree: map<string, int>,
                           queue: seq<string>, current: nat)
  {
    RankedSoFar(rank, es, ids, current) && Counts(inDegree, es, ids, rank.Keys)
    && Queues(queue, rank.Keys, inDegree, ids)
  }

  /** The body of the loop: takes off the whole queue. */
  method NextRound(ghost es: seq<Edge>, ghost ids: set<string>, rank: map<string, nat>, inDegree: map<string, int>,
                   adj: map<string, seq<string>>, queue: seq<string>, current: nat)
    returns (ranked: map<string, nat>, lowered: map<string, int>, next: seq<string>)
    requires (forall e <- es :: e.target in ids) && Lists(adj, es, ids)
    requires Standing(es, ids, rank, inDegree, queue, current) && queue != []
    ensures Standing(es, ids, ranked, lowered, next, current + 1)
    ensures rank.Keys < ranked.Keys <= ids
  {
    NextLevel(es, ids, rank, inDegree, queue, current);
    ranked, lowered, next := TakeLevel(es, ids, rank, inDegree, adj, queue, current);
    LevelRanked(es, ids, rank, ranked, current);
    assert queue[0] in queue;
  }

  lemma LastRound(es: seq<Edge>, ids: set<string>, rank: map<string, nat>, inDegree: map<string, int>, current: nat)
    requires Standing(es, ids, rank, inDegree, [], current)
    ensures RanksLevels(rank, es, ids)
  {
    NextLevel(es, ids, rank, inDegree, [], current);
    assert IdSet([]) == {};
    AllRanked(es, ids, rank, current);
  }

  method Roots(ids: seq<string>, inDegree: map<string, int>) returns (queue: seq<string>)
    requires Distinct(ids) && inDegree.Keys == IdSet(ids)
    ensures Queues(queue, {}, inDegree, IdSet(ids))
  {
    queue := [];
    var i := 0;
    while i < |ids|
      invariant 0 <= i <= |ids| && Distinct(queue)
      invariant forall x :: x in queue <==> x in inDegree && x in ids[..i] && inDegree[x] == 0
    {
      assert ids[i] in IdSet(ids);
      assert ids[..i + 1] == ids[..i] + [ids[i]];
      if inDegree[ids[i]] == 0 { queue := queue + [ids[i]]; }
      i := i + 1;
    }
    assert ids[..i] == ids;
  }

  /** Ranks every id by its level; without a relevant edge it ranks nobody. */
  method ComputePriorityRank(ids: seq<string>, edges: seq<Edge>) returns (rank: map<string, nat>)
    requires Distinct(ids)
    ensures var es := RelevantEdges(edges, IdSet(ids));
            if es == [] then rank == map[] else RanksLevels(rank, es, IdSet(ids))
  {
    var idSet := set id | id in ids;
    var es := RelevantEdges(edges, idSet);
    rank := map[];
    if es == [] { return; }
    RelevantMembers(edges, idSet);
    var inDegree, adj := BuildGraph(es, idSet);
    assert rank.Keys == {};
    var queue := Roots(ids, inDegree);
    var current := 0;
    while queue != []
      invariant Standing(es, idSet, rank, inDegree, queue, current)
      decreases idSet - rank.Keys
    {
      rank, inDegree, queue := NextRound(es, idSet, rank, inDegree, adj, queue, current);
      current := current + 1;
    }
    LastRound(es, idSet, rank, inDegree, current);
  }
}
