/**
 The task graph as the colony sees it: node rows and leases (src/core/store/lock-manager.ts).
 */
module ColonyGraph {
  import opened Prelude

  datatype Kind = Task | Subtask | Epic | Bug | Risk | AcceptanceCriterion | OtherKind
  datatype Status = Backlog | Ready | InProgress | Blocked | Done | Quarantined | Satisfied

  datatype Size = XS | S | M | L | XL
  datatype Relation = DependsOn | PriorityOver | OtherRelation

  /** What else the ranking of tasks looks at; `moscow` is the weight of the best MoSCoW tag. */
  datatype Details = Details(
    priority: int, criteria: nat, moscow: nat, size: Size, estimate: Option<real>, createdAt: int)

  /** `flagged` is the row's own `blocked` marker, which is independent of its status. */
  datatype Node = Node(
    id: string, kind: Kind, status: Status, flagged: bool, parentId: Option<string>, details: Details)
  datatype Edge = Edge(source: string, target: string, relation: Relation)

  ghost predicate UniqueIds(nodes: seq<Node>) {
    forall i, j | 0 <= i < j < |nodes| :: nodes[i].id != nodes[j].id
  }

  ghost function Ids(nodes: seq<Node>): set<string> {
    set n <- nodes :: n.id
  }

  function SetStatus(nodes: seq<Node>, id: string, status: Status): seq<Node> {
    if nodes == [] then []
    else [if nodes[0].id == id then nodes[0].(status := status) else nodes[0]] + SetStatus(nodes[1..], id, status)
  }

  lemma {:induction false} SetStatusAt(nodes: seq<Node>, id: string, status: Status)
    ensures |SetStatus(nodes, id, status)| == |nodes|
    ensures forall i | 0 <= i < |nodes| ::
              SetStatus(nodes, id, status)[i]
              == if nodes[i].id == id then nodes[i].(status := status) else nodes[i]
  {
    if nodes == [] {
    } else {
      SetStatusAt(nodes[1..], id, status);
    }
  }

  function Select(nodes: seq<Node>, keep: Node -> bool): seq<Node> {
    if nodes == [] then []
    else if keep(nodes[0]) then [nodes[0]] + Select(nodes[1..], keep)
    else Select(nodes[1..], keep)
  }

  lemma {:induction false} SelectMembers(nodes: seq<Node>, keep: Node -> bool)
    ensures forall n :: n in Select(nodes, keep) <==> n in nodes && keep(n)
  {
    if nodes == [] {
    } else {
      assert nodes == [nodes[0]] + nodes[1..];
      SelectMembers(nodes[1..], keep);
    }
  }

  lemma {:induction false} SelectConcat(a: seq<Node>, b: seq<Node>, keep: Node -> bool)
    ensures Select(a + b, keep) == Select(a, keep) + Select(b, keep)
  {
    if a == [] {
      assert a + b == b;
    } else {
      SelectConcat(a[1..], b, keep);
      assert (a + b)[1..] == a[1..] + b;
    }
  }

  ghost function Places(nodes: seq<Node>, keep: Node -> bool): set<nat> {
    set i: nat | i < |nodes| && keep(nodes[i])
  }

  lemma {:induction false} SelectCounts(nodes: seq<Node>, keep: Node -> bool)
    ensures |Select(nodes, keep)| == |Places(nodes, keep)|
  {
    if nodes == [] {
      assert Places(nodes, keep) == {};
    } else {
      var last := |nodes| - 1;
      SelectCounts(nodes[..last], keep);
      SelectConcat(nodes[..last], [nodes[last]], keep);
      assert nodes == nodes[..last] + [nodes[last]];
      assert Places(nodes, keep) - {last} == Places(nodes[..last], keep);
    }
  }

  // ---------------------------------------------------------------------------
  // Leases
  // ---------------------------------------------------------------------------

  datatype Lock = Lock(agentId: string, expiresAt: int)

  const CLAIM_TTL_MS := 300_000

  /** Drops every lease that expired before `now`. */
  function Sweep(locks: map<string, Lock>, now: int): map<string, Lock> {
    map r | r in locks && locks[r].expiresAt >= now :: locks[r]
  }

  /** One claim attempt: a live lease of another agent makes it fail without an error. */
  function TryClaim(locks: map<string, Lock>, now: int, resource: string, agentId: string): map<string, Lock> {
    var live := Sweep(locks, now);
    if resource in live && live[resource].agentId != agentId then live
    else live[resource := Lock(agentId, now + CLAIM_TTL_MS)]
  }

  predicate Orphaned(n: Node, locks: map<string, Lock>) {
    n.status == InProgress && n.id !in locks
  }

  predicate IsInProgress(n: Node) {
    n.status == InProgress
  }

  function OrphanTest(locks: map<string, Lock>): Node -> bool {
    n => Orphaned(n, locks)
  }

  /** Every in-progress node without a lease row goes back to the backlog. */
  function Reclaim(nodes: seq<Node>, locks: map<string, Lock>): seq<Node> {
    if nodes == [] then []
    else
      [if Orphaned(nodes[0], locks) then nodes[0].(status := Backlog) else nodes[0]] + Reclaim(nodes[1..], locks)
  }

  lemma {:induction false} ReclaimAt(nodes: seq<Node>, locks: map<string, Lock>)
    ensures |Reclaim(nodes, locks)| == |nodes|
    ensures forall i | 0 <= i < |nodes| ::
              Reclaim(nodes, locks)[i]
              == if Orphaned(nodes[i], locks) then nodes[i].(status := Backlog) else nodes[i]
  {
    if nodes == [] {
    } else {
      ReclaimAt(nodes[1..], locks);
    }
  }

  function CountOrphans(nodes: seq<Node>, locks: map<string, Lock>): nat {
    |Select(nodes, OrphanTest(locks))|
  }
}
