/**
 The task picker shared by the colony and `agf next` (src/core/planner/next-task.ts:76-243), called without options.
 */
module Picker {
  import opened Prelude
  import opened ColonyGraph
  import opened PriorityRank

  // ---------------------------------------------------------------------------
  // Candidates
  // ---------------------------------------------------------------------------

  predicate Eligible(n: Node) {
    (n.kind == Task || n.kind == Subtask) && (n.status == Backlog || n.status == Ready) && !n.flagged
  }

  predicate IsDone(nodes: seq<Node>, id: string) {
    exists n <- nodes :: n.id == id && n.status == Done
  }

  /** How many `depends_on` edges of this node point at something that is not done. */
  function Unresolved(n: Node, nodes: seq<Node>, edges: seq<Edge>): nat {
    if edges == [] then 0
    else
      var e := edges[|edges| - 1];
      Unresolved(n, nodes, edges[..|edges| - 1]) +
      (if e.relation == DependsOn && e.source == n.id && !IsDone(nodes, e.target) then 1 else 0)
  }

  lemma {:induction false} UnresolvedZeroIffAllDone(n: Node, nodes: seq<Node>, edges: seq<Edge>)
    ensures Unresolved(n, nodes, edges) == 0 <==>
            forall e <- edges | e.relation == DependsOn && e.source == n.id :: IsDone(nodes, e.target)
  {
    if edges == [] {
    } else {
      assert edges == edges[..|edges| - 1] + [edges[|edges| - 1]];
      UnresolvedZeroIffAllDone(n, nodes, edges[..|edges| - 1]);
    }
  }

  function IsUnblocked(nodes: seq<Node>, edges: seq<Edge>): Node -> bool {
    n => Unresolved(n, nodes, edges) == 0
  }

  // ---------------------------------------------------------------------------
  // The comparator
  // ---------------------------------------------------------------------------

  /** How many `depends_on` edges point at this node. */
  function Impact(id: string, edges: seq<Edge>): nat {
    if edges == [] then 0
    else
      var e := edges[|edges| - 1];
      Impact(id, edges[..|edges| - 1]) + (if e.relation == DependsOn && e.target == id then 1 else 0)
  }

  function Minutes(size: Size): real {
    match size
    case XS => 30.0
    case S => 60.0
    case M => 120.0
    case L => 240.0
    case XL => 480.0
  }

  function SizeOrder(size: Size): nat {
    match size
    case XS => 1
    case S => 2
    case M => 3
    case L => 4
    case XL => 5
  }

  const DAY_MS := 86_400_000.0

  /** Cost of delay over job size (src/core/planner/wsjf-score.ts:53-75): priority, MoSCoW and age up to a cap. */
  function Wsjf(d: Details, now: int): real {
    var clamped := if d.priority < 1 then 1 else if d.priority > 5 then 5 else d.priority;
    var days := if now > d.createdAt then (now - d.createdAt) as real / DAY_MS else 0.0;
    var age := if days * 0.01 < 2.0 then days * 0.01 else 2.0;
    var jobSize := if d.estimate.Some? && d.estimate.value > 0.0 then d.estimate.value else Minutes(d.size);
    ((6 - clamped + d.moscow) as real + age) / jobSize
  }

  /** Acceptance criteria of its own, or else those kept as child nodes. */
  function CriteriaCount(nodes: seq<Node>, n: Node): nat {
    if n.details.criteria > 0 || n.id == "" then n.details.criteria
    else |Select(nodes, (c: Node) => c.kind == AcceptanceCriterion && c.parentId == Some(n.id))|
  }

  /** What the comparator looks at after the topological rank. */
  datatype Key = Key(
    impact: nat, priority: int, wsjf: real, size: nat, estimate: real, criteria: nat, createdAt: int)

  function KeyOf(nodes: seq<Node>, edges: seq<Edge>, now: int, n: Node): Key {
    Key(Impact(n.id, edges), n.details.priority, Wsjf(n.details, now), SizeOrder(n.details.size),
        OrElse(n.details.estimate, 999.0), CriteriaCount(nodes, n), n.details.createdAt)
  }

  predicate Before(a: Key, b: Key) {
    if a.impact != b.impact then a.impact > b.impact
    else if a.priority != b.priority then a.priority < b.priority
    else if a.wsjf != b.wsjf then a.wsjf > b.wsjf
    else if a.size != b.size then a.size < b.size
    else if a.estimate != b.estimate then a.estimate < b.estimate
    else if a.criteria != b.criteria then a.criteria > b.criteria
    else a.createdAt < b.createdAt
  }

  type Order = (Node, Node) -> bool

  function Ahead(nodes: seq<Node>, edges: seq<Edge>, now: int): Order {
    (a, b) => Before(KeyOf(nodes, edges, now, a), KeyOf(nodes, edges, now, b))
  }

  function FewerOpen(nodes: seq<Node>, edges: seq<Edge>): Order {
    (a, b) => Unresolved(a, nodes, edges) < Unresolved(b, nodes, edges)
  }

  ghost predicate WeakOrder(before: Order) {
    && (forall a, b :: before(a, b) ==> !before(b, a))
    && (forall a, b, c :: !before(b, a) && !before(c, b) ==> !before(c, a))
  }

  /** The first node that no other comes before: what a stable sort puts in front, see `FirstLeastIsStable`. */
  function FirstLeast(nodes: seq<Node>, before: Order): Node
    requires nodes != []
  {
    if |nodes| == 1 then nodes[0]
    else
      var rest := FirstLeast(nodes[1..], before);
      if before(rest, nodes[0]) then rest else nodes[0]
  }

  lemma {:induction false} FirstLeastIsLeast(nodes: seq<Node>, before: Order)
    requires nodes != [] && WeakOrder(before)
    ensures FirstLeast(nodes, before) in nodes && forall n <- nodes :: !before(n, FirstLeast(nodes, before))
  {
    if |nodes| == 1 {
    } else {
      assert nodes == [nodes[0]] + nodes[1..];
      FirstLeastIsLeast(nodes[1..], before);
    }
  }

  /** Of nodes that tie, the earliest is taken: it comes before every node in front of it. */
  lemma {:induction false} FirstLeastIsStable(nodes: seq<Node>, before: Order) returns (i: nat)
    requires nodes != [] && WeakOrder(before)
    ensures i < |nodes| && nodes[i] == FirstLeast(nodes, before)
    ensures forall j | 0 <= j < |nodes| :: if j < i then before(nodes[i], nodes[j]) else !before(nodes[j], nodes[i])
  {
    FirstLeastIsLeast(nodes, before);
    if |nodes| == 1 {
      i := 0;
    } else {
      var k := FirstLeastIsStable(nodes[1..], before);
      i := if before(nodes[1..][k], nodes[0]) then k + 1 else 0;
      forall j | 0 <= j < |nodes|
        ensures if j < i then before(nodes[i], nodes[j]) else !before(nodes[j], nodes[i])
      {
        assert j > 0 ==> nodes[j] == nodes[1..][j - 1];
      }
    }
  }

  // ---------------------------------------------------------------------------
  // The pick
  // ---------------------------------------------------------------------------

  datatype Pick = Pick(node: Node, allBlocked: bool)

  /** Some candidate has priority over this one. */
  predicate Preceded(candidates: seq<Node>, edges: seq<Edge>, n: Node) {
    exists e <- edges :: e.relation == PriorityOver && e.target == n.id && exists m <- candidates :: m.id == e.source
  }

  function IsFree(candidates: seq<Node>, edges: seq<Edge>): Node -> bool {
    n => !Preceded(candidates, edges, n)
  }

  /** The candidates that no candidate has priority over, or all when each is preceded by one. */
  function Leading(candidates: seq<Node>, edges: seq<Edge>): seq<Node> {
    var free := Select(candidates, IsFree(candidates, edges));
    if free == [] then candidates else free
  }

  function Unblocked(nodes: seq<Node>, edges: seq<Edge>): seq<Node> {
    Select(Select(nodes, Eligible), IsUnblocked(nodes, edges))
  }

  /** The next task. Of the topological rank only the first level matters, see `RankPicksLeading`. */
  function FindNextTask(nodes: seq<Node>, edges: seq<Edge>, now: int): Option<Pick> {
    if Select(nodes, Eligible) == [] then None
    else if Unblocked(nodes, edges) == [] then
      Some(Pick(FirstLeast(Select(nodes, Eligible), FewerOpen(nodes, edges)), true))
    else Some(Pick(FirstLeast(Leading(Unblocked(nodes, edges), edges), Ahead(nodes, edges, now)), false))
  }

  lemma KeysAreOrdered(a: Key, b: Key, c: Key)
    ensures Before(a, b) ==> !Before(b, a)
    ensures !Before(b, a) && !Before(c, b) ==> !Before(c, a)
  {
  }

  lemma AheadIsWeakOrder(nodes: seq<Node>, edges: seq<Edge>, now: int)
    ensures WeakOrder(Ahead(nodes, edges, now))
  {
    var before := Ahead(nodes, edges, now);
    forall a, b, c
      ensures before(a, b) ==> !before(b, a)
      ensures !before(b, a) && !before(c, b) ==> !before(c, a)
    {
      KeysAreOrdered(KeyOf(nodes, edges, now, a), KeyOf(nodes, edges, now, b), KeyOf(nodes, edges, now, c));
    }
  }

  lemma UnblockedMembers(nodes: seq<Node>, edges: seq<Edge>)
    ensures forall n :: n in Unblocked(nodes, edges) <==>
              && n in nodes && Eligible(n)
              && forall e <- edges | e.relation == DependsOn && e.source == n.id :: IsDone(nodes, e.target)
  {
    SelectMembers(nodes, Eligible);
    SelectMembers(Select(nodes, Eligible), IsUnblocked(nodes, edges));
    forall n: Node
      ensures Unresolved(n, nodes, edges) == 0 <==>
              forall e <- edges | e.relation == DependsOn && e.source == n.id :: IsDone(nodes, e.target)
    {
      UnresolvedZeroIffAllDone(n, nodes, edges);
    }
  }

  lemma LeadingMembers(candidates: seq<Node>, edges: seq<Edge>, n: Node)
    ensures n in Leading(candidates, edges) <==>
              && n in candidates
              && (Preceded(candidates, edges, n) ==> forall m <- candidates :: Preceded(candidates, edges, m))
  {
    var free := Select(candidates, IsFree(candidates, edges));
    SelectMembers(candidates, IsFree(candidates, edges));
    if free != [] { assert free[0] in free; }
  }

  lemma BestIsLeading(nodes: seq<Node>, edges: seq<Edge>, now: int)
    requires Unblocked(nodes, edges) != []
    ensures var leading := Leading(Unblocked(nodes, edges), edges);
            var best := FirstLeast(leading, Ahead(nodes, edges, now));
            && best in leading && best in Unblocked(nodes, edges)
            && forall n <- leading :: !Before(KeyOf(nodes, edges, now, n), KeyOf(nodes, edges, now, best))
  {
    var leading := Leading(Unblocked(nodes, edges), edges);
    AheadIsWeakOrder(nodes, edges, now);
    FirstLeastIsLeast(leading, Ahead(nodes, edges, now));
    LeadingMembers(Unblocked(nodes, edges), edges, FirstLeast(leading, Ahead(nodes, edges, now)));
  }

  /**
   The picker answers null exactly when no node is eligible. Otherwise it hands out an eligible
   node: one with every dependency done when such a node exists, and else, with the warning, one
   with as few open dependencies as possible.
   */
  lemma PickerContract(nodes: seq<Node>, edges: seq<Edge>, now: int)
    ensures FindNextTask(nodes, edges, now).None? <==> forall n <- nodes :: !Eligible(n)
    ensures FindNextTask(nodes, edges, now).Some? ==>
              var p := FindNextTask(nodes, edges, now).value;
              && p.node in nodes && Eligible(p.node)
              && (p.allBlocked <==> Unblocked(nodes, edges) == [])
              && (!p.allBlocked ==> p.node in Leading(Unblocked(nodes, edges), edges))
              && (p.allBlocked ==> forall n <- nodes | Eligible(n) ::
                                     0 < Unresolved(p.node, nodes, edges) <= Unresolved(n, nodes, edges))
  {
    var eligible, unblocked := Select(nodes, Eligible), Unblocked(nodes, edges);
    SelectMembers(nodes, Eligible);
    SelectMembers(eligible, IsUnblocked(nodes, edges));
    if eligible != [] {
      assert eligible[0] in eligible;
      if unblocked != [] {
        BestIsLeading(nodes, edges, now);
      } else {
        FirstLeastIsLeast(eligible, FewerOpen(nodes, edges));
        assert forall n <- eligible :: n !in unblocked;
      }
    }
  }

  // ---------------------------------------------------------------------------
  // The picker as it runs: one walk over the edges, topological ranks, one sort
  // ---------------------------------------------------------------------------

  function CountAt(counts: map<string, nat>, id: string): nat {
    if id in counts then counts[id] else 0
  }

  /** Counts open dependencies of the eligible nodes, and incoming dependencies of all. */
  method CountEdges(eligible: seq<Node>, nodes: seq<Node>, edges: seq<Edge>)
    returns (unresolved: map<string, nat>, incoming: map<string, nat>)
    ensures forall n <- eligible :: CountAt(unresolved, n.id) == Unresolved(n, nodes, edges)
    ensures forall id :: CountAt(incoming, id) == Impact(id, edges)
  {
    unresolved := map n | n in eligible :: n.id := 0;
    incoming := map[];
    var i := 0;
    while i < |edges|
      invariant 0 <= i <= |edges|
      invariant forall n <- eligible :: n.id in unresolved && unresolved[n.id] == Unresolved(n, nodes, edges[..i])
      invariant forall id :: CountAt(incoming, id) == Impact(id, edges[..i])
    {
      var e := edges[i];
      assert edges[..i + 1][..i] == edges[..i];
      if e.relation == DependsOn {
        incoming := incoming[e.target := CountAt(incoming, e.target) + 1];
        if e.source in unresolved && !IsDone(nodes, e.target) {
          unresolved := unresolved[e.source := unresolved[e.source] + 1];
        }
      }
      i := i + 1;
    }
    assert edges[..i] == edges;
  }

  lemma {:induction false} SelectSame(nodes: seq<Node>, f: Node -> bool, g: Node -> bool)
    requires forall n <- nodes :: f(n) == g(n)
    ensures Select(nodes, f) == Select(nodes, g)
  {
    if nodes == [] {
    } else {
      SelectSame(nodes[1..], f, g);
    }
  }

  lemma {:induction false} FirstLeastMember(nodes: seq<Node>, before: Order)
    requires nodes != []
    ensures FirstLeast(nodes, before) in nodes
  {
    if |nodes| == 1 {
    } else {
      FirstLeastMember(nodes[1..], before);
    }
  }

  lemma {:induction false} FirstLeastSame(nodes: seq<Node>, f: Order, g: Order)
    requires nodes != [] && forall a, b | a in nodes && b in nodes :: f(a, b) == g(a, b)
    ensures FirstLeast(nodes, f) == FirstLeast(nodes, g)
  {
    if |nodes| == 1 {
    } else {
      FirstLeastSame(nodes[1..], f, g);
      FirstLeastMember(nodes[1..], f);
    }
  }

  /** If the free ones come before the others, sorting all of them or only the free ones gives the same first. */
  lemma {:induction false} FreeFirst(nodes: seq<Node>, free: Node -> bool, ranked: Order, before: Order)
    requires Select(nodes, free) != []
    requires forall a, b | a in nodes && b in nodes && free(a) :: ranked(a, b) == (free(b) ==> before(a, b))
    requires forall a, b | a in nodes && b in nodes && !free(a) && free(b) :: !ranked(a, b)
    ensures nodes != [] && FirstLeast(nodes, ranked) == FirstLeast(Select(nodes, free), before)
  {
    if |nodes| == 1 {
      assert Select(nodes[1..], free) == [] && Select(nodes, free) == [nodes[0]];
    } else {
      var later := Select(nodes[1..], free);
      SelectMembers(nodes[1..], free);
      FirstLeastMember(nodes[1..], ranked);
      if later != [] {
        FreeFirst(nodes[1..], free, ranked, before);
        FirstLeastMember(later, before);
        assert ([nodes[0]] + later)[1..] == later;
        assert FirstLeast(nodes[1..], ranked) in nodes[1..] && free(FirstLeast(nodes[1..], ranked));
      } else {
        assert forall n <- nodes[1..] :: n !in later;
        assert Select(nodes, free) == [nodes[0]];
      }
    }
  }

  /** The rank is compared first; nodes without a rank come last. */
  function ByRank(rank: map<string, nat>, before: Order): Order {
    (a: Node, b: Node) =>
      if a.id in rank && b.id in rank && rank[a.id] != rank[b.id] then rank[a.id] < rank[b.id]
      else if a.id in rank && b.id !in rank then true
      else if a.id !in rank && b.id in rank then false
      else before(a, b)
  }

  /** Comparing ranks first keeps a comparator one that a sort can rely on. */
  lemma ByRankIsWeakOrder(rank: map<string, nat>, before: Order)
    requires WeakOrder(before)
    ensures WeakOrder(ByRank(rank, before))
  {
    var f := ByRank(rank, before);
    forall a, b, c
      ensures f(a, b) ==> !f(b, a)
      ensures !f(b, a) && !f(c, b) ==> !f(c, a)
    {
    }
  }

  function IdsOf(nodes: seq<Node>): seq<string> {
    seq(|nodes|, i requires 0 <= i < |nodes| => nodes[i].id)
  }

  lemma CandidateIds(candidates: seq<Node>)
    ensures forall id :: id in IdSet(IdsOf(candidates)) <==> exists m <- candidates :: m.id == id
  {
    forall id ensures id in IdSet(IdsOf(candidates)) <==> exists m <- candidates :: m.id == id {
      if id in IdsOf(candidates) {
        var i :| 0 <= i < |candidates| && IdsOf(candidates)[i] == id;
        assert candidates[i] in candidates;
      }
      if m :| m in candidates && m.id == id {
        var i :| 0 <= i < |candidates| && candidates[i] == m;
        assert IdsOf(candidates)[i] == id;
      }
    }
  }

  lemma FirstLevelIsFree(candidates: seq<Node>, edges: seq<Edge>, n: Node)
    requires n in candidates
    ensures AtLevel(RelevantEdges(edges, IdSet(IdsOf(candidates))), IdSet(IdsOf(candidates)), n.id, 0)
         <==> !Preceded(candidates, edges, n)
  {
    var ids := IdSet(IdsOf(candidates));
    var es := RelevantEdges(edges, ids);
    CandidateIds(candidates);
    RelevantMembers(edges, ids);
    PendingZeroIff(es, n.id, {});
    assert Settled(es, ids, 0) == {};
  }

  /** What the topological ranks say of the candidates: nothing, or their levels. */
  ghost predicate Ranks(rank: map<string, nat>, candidates: seq<Node>, edges: seq<Edge>) {
    var ids := IdSet(IdsOf(candidates));
    var es := RelevantEdges(edges, ids);
    if es == [] then rank == map[] else RanksLevels(rank, es, ids)
  }

  lemma NobodyAtFirstLevel(candidates: seq<Node>, edges: seq<Edge>)
    requires forall n <- candidates :: Preceded(candidates, edges, n)
    ensures Settled(RelevantEdges(edges, IdSet(IdsOf(candidates))), IdSet(IdsOf(candidates)), 1) == {}
  {
    var ids := IdSet(IdsOf(candidates));
    var es := RelevantEdges(edges, ids);
    CandidateIds(candidates);
    forall id | id in Settled(es, ids, 1) ensures false {
      var n :| n in candidates && n.id == id;
      FirstLevelIsFree(candidates, edges, n);
    }
  }

  lemma NobodyRanked(rank: map<string, nat>, candidates: seq<Node>, edges: seq<Edge>)
    requires Ranks(rank, candidates, edges) && forall n <- candidates :: Preceded(candidates, edges, n)
    ensures rank == map[]
  {
    var ids := IdSet(IdsOf(candidates));
    var es := RelevantEdges(edges, ids);
    NobodyAtFirstLevel(candidates, edges);
    if es != [] {
      forall id | id in rank ensures false {
        assert AtLevel(es, ids, id, rank[id]);
        SettledStops(es, ids, 0, rank[id] + 1);
      }
    }
  }

  lemma FirstLevelFirst(candidates: seq<Node>, free: Node -> bool, rank: map<string, nat>, before: Order)
    requires Select(candidates, free) != []
    requires forall n <- candidates :: free(n) <==> n.id in rank && rank[n.id] == 0
    ensures candidates != []
    ensures FirstLeast(candidates, ByRank(rank, before)) == FirstLeast(Select(candidates, free), before)
  {
    FreeFirst(candidates, free, ByRank(rank, before), before);
  }

  lemma NoEdgeNobodyPrecedes(candidates: seq<Node>, edges: seq<Edge>, n: Node)
    requires n in candidates && RelevantEdges(edges, IdSet(IdsOf(candidates))) == []
    ensures !Preceded(candidates, edges, n)
  {
    CandidateIds(candidates);
    RelevantMembers(edges, IdSet(IdsOf(candidates)));
    assert forall e <- edges :: e !in RelevantEdges(edges, IdSet(IdsOf(candidates)));
  }

  /**
   Sorting by topological rank first picks the same node as sorting only the candidates that nobody
   precedes: whatever the ranks beyond the first level are, they never decide.
   */
  lemma RankPicksLeading(candidates: seq<Node>, edges: seq<Edge>, rank: map<string, nat>, before: Order)
    requires candidates != [] && Ranks(rank, candidates, edges)
    ensures FirstLeast(candidates, ByRank(rank, before)) == FirstLeast(Leading(candidates, edges), before)
  {
    var free := IsFree(candidates, edges);
    SelectMembers(candidates, free);
    var ids := IdSet(IdsOf(candidates));
    if Select(candidates, free) == [] {
      forall n | n in candidates ensures !free(n) { assert n !in Select(candidates, free); }
      NobodyRanked(rank, candidates, edges);
      FirstLeastSame(candidates, ByRank(rank, before), before);
    } else if RelevantEdges(edges, ids) == [] {
      forall n | n in candidates ensures free(n) { NoEdgeNobodyPrecedes(candidates, edges, n); }
      FreeFirst(candidates, free, ByRank(rank, before), before);
    } else {
      forall n | n in candidates ensures free(n) <==> n.id in rank && rank[n.id] == 0 {
        FirstLevelIsFree(candidates, edges, n);
      }
      FirstLevelFirst(candidates, free, rank, before);
    }
  }

  lemma {:induction false} SelectKeepsUnique(nodes: seq<Node>, keep: Node -> bool)
    requires UniqueIds(nodes)
    ensures UniqueIds(Select(nodes, keep))
  {
    if nodes == [] {
    } else {
      SelectKeepsUnique(nodes[1..], keep);
      SelectMembers(nodes[1..], keep);
      var rest := Select(nodes[1..], keep);
      forall i | 0 <= i < |rest| ensures rest[i].id != nodes[0].id {
        assert rest[i] in nodes[1..];
      }
    }
  }

  /** The picker of the source. */
  method FindNext(nodes: seq<Node>, edges: seq<Edge>, now: int) returns (r: Option<Pick>)
    requires UniqueIds(nodes)
    ensures r == FindNextTask(nodes, edges, now)
  {
    var eligible := Select(nodes, Eligible);
    if eligible == [] { return None; }
    var unresolved, incoming := CountEdges(eligible, nodes, edges);
    var unblocked := Select(eligible, (n: Node) => CountAt(unresolved, n.id) == 0);
    SelectSame(eligible, (n: Node) => CountAt(unresolved, n.id) == 0, IsUnblocked(nodes, edges));
    if unblocked == [] {
      var fewer := (a: Node, b: Node) => CountAt(unresolved, a.id) < CountAt(unresolved, b.id);
      FirstLeastSame(eligible, fewer, FewerOpen(nodes, edges));
      return Some(Pick(FirstLeast(eligible, fewer), true));
    }
    SelectKeepsUnique(nodes, Eligible);
    SelectKeepsUnique(eligible, IsUnblocked(nodes, edges));
    var rank := ComputePriorityRank(IdsOf(unblocked), edges);
    var key := (n: Node) => KeyOf(nodes, edges, now, n).(impact := CountAt(incoming, n.id));
    var compare := ByRank(rank, (a, b) => Before(key(a), key(b)));
    FirstLeastSame(unblocked, compare, ByRank(rank, Ahead(nodes, edges, now)));
    RankPicksLeading(unblocked, edges, rank, Ahead(nodes, edges, now));
    return Some(Pick(FirstLeast(unblocked, compare), false));
  }
}
