/**
 What the picker hands out, told by rows and edges alone (src/core/planner/next-task.ts:76-243,
 src/core/planner/wsjf-score.ts): edges are counted by position, rows are compared column by column.
 */
module PickerLaws {
  import opened Prelude
  import opened ColonyGraph
  import opened Picker

  /** An open task row that carries no marker. */
  ghost predicate TaskInPool(n: Node) {
    n.kind in {Task, Subtask} && n.status in {Backlog, Ready} && !n.flagged
  }

  /** The edges that point at this node as a dependency. */
  ghost function Dependents(edges: seq<Edge>, id: string): set<nat> {
    set i: nat | i < |edges| && edges[i].relation == DependsOn && edges[i].target == id
  }

  /** The edges by which this node depends on something that no done row stands for. */
  ghost function OpenDependencies(nodes: seq<Node>, edges: seq<Edge>, id: string): set<nat> {
    set i: nat | i < |edges| && edges[i].relation == DependsOn && edges[i].source == id
                 && forall n <- nodes | n.id == edges[i].target :: n.status != Done
  }

  ghost predicate Candidate(nodes: seq<Node>, edges: seq<Edge>, n: Node) {
    n in nodes && TaskInPool(n) && OpenDependencies(nodes, edges, n.id) == {}
  }

  /** Some candidate stands at the source of a priority edge onto this node. */
  ghost predicate Outranked(nodes: seq<Node>, edges: seq<Edge>, n: Node) {
    exists e <- edges ::
      && e.relation == PriorityOver && e.target == n.id
      && exists m <- nodes :: m.id == e.source && Candidate(nodes, edges, m)
  }

  // ---------------------------------------------------------------------------
  // Counting edges by position
  // ---------------------------------------------------------------------------

  lemma {:induction false} ImpactCounts(id: string, edges: seq<Edge>)
    ensures Impact(id, edges) == |Dependents(edges, id)|
  {
    if edges == [] {
      assert Dependents(edges, id) == {};
    } else {
      var last := |edges| - 1;
      ImpactCounts(id, edges[..last]);
      assert Dependents(edges, id) - {last} == Dependents(edges[..last], id);
    }
  }

  lemma {:induction false} UnresolvedCounts(n: Node, nodes: seq<Node>, edges: seq<Edge>)
    ensures Unresolved(n, nodes, edges) == |OpenDependencies(nodes, edges, n.id)|
  {
    if edges == [] {
      assert OpenDependencies(nodes, edges, n.id) == {};
    } else {
      var last := |edges| - 1;
      UnresolvedCounts(n, nodes, edges[..last]);
      assert OpenDependencies(nodes, edges, n.id) - {last} == OpenDependencies(nodes, edges[..last], n.id);
    }
  }

  lemma CandidatesAreUnblocked(nodes: seq<Node>, edges: seq<Edge>)
    ensures forall n :: n in Unblocked(nodes, edges) <==> Candidate(nodes, edges, n)
  {
    SelectMembers(nodes, Eligible);
    SelectMembers(Select(nodes, Eligible), IsUnblocked(nodes, edges));
    forall n: Node
      ensures Unresolved(n, nodes, edges) == 0 <==> OpenDependencies(nodes, edges, n.id) == {}
    {
      UnresolvedCounts(n, nodes, edges);
    }
  }

  lemma OutrankedIsPreceded(nodes: seq<Node>, edges: seq<Edge>, n: Node)
    ensures Preceded(Unblocked(nodes, edges), edges, n) <==> Outranked(nodes, edges, n)
  {
    CandidatesAreUnblocked(nodes, edges);
  }

  /**
   The picker answers null exactly when the pool is empty. Otherwise it hands out a task of the pool:
   one with every dependency done when there is such a task, and else, with the warning, one with as
   few open dependencies as any other.
   */
  lemma PickFitsTheRows(nodes: seq<Node>, edges: seq<Edge>, now: int)
    ensures FindNextTask(nodes, edges, now).None? <==> forall n <- nodes :: !TaskInPool(n)
    ensures FindNextTask(nodes, edges, now).Some? ==>
              var p := FindNextTask(nodes, edges, now).value;
              && p.node in nodes && TaskInPool(p.node)
              && (p.allBlocked <==> forall n <- nodes :: !Candidate(nodes, edges, n))
              && (!p.allBlocked ==> Candidate(nodes, edges, p.node))
              && (p.allBlocked ==> forall n <- nodes | TaskInPool(n) ::
                                     |OpenDependencies(nodes, edges, p.node.id)|
                                     <= |OpenDependencies(nodes, edges, n.id)|)
  {
    PickerContract(nodes, edges, now);
    CandidatesAreUnblocked(nodes, edges);
    if FindNextTask(nodes, edges, now).Some? {
      var p := FindNextTask(nodes, edges, now).value;
      assert Unblocked(nodes, edges) == [] <==> forall n <- nodes :: !Candidate(nodes, edges, n) by {
        if Unblocked(nodes, edges) != [] { assert Unblocked(nodes, edges)[0] in Unblocked(nodes, edges); }
      }
      if !p.allBlocked { LeadingMembers(Unblocked(nodes, edges), edges, p.node); }
      forall n | n in nodes { UnresolvedCounts(n, nodes, edges); }
    }
  }

  // ---------------------------------------------------------------------------
  // WSJF
  // ---------------------------------------------------------------------------

  /** Weight and minutes that a value divides to. */
  lemma Share(cost: real, minutes: real)
    requires minutes > 0.0
    ensures cost / minutes * minutes == cost
  {
  }

  /**
   The score times the estimate is the cost of delay: six less the priority, and the MoSCoW weight, and
   a hundredth for each day since the row was made, but never more than two.
   */
  lemma WsjfIsCostOverMinutes(d: Details, now: int)
    requires 1 <= d.priority <= 5 && d.estimate.Some? && d.estimate.value > 0.0
    ensures var cost := Wsjf(d, now) * d.estimate.value;
            var age := now - d.createdAt;
            && (age <= 0 ==> cost == (6 - d.priority + d.moscow) as real)
            && (0 <= age <= 200 * 86_400_000 ==>
                  cost == (6 - d.priority + d.moscow) as real + age as real / 8_640_000_000.0)
            && (age >= 200 * 86_400_000 ==> cost == (8 - d.priority + d.moscow) as real)
  {
    var days := if now > d.createdAt then (now - d.createdAt) as real / DAY_MS else 0.0;
    var age := if days * 0.01 < 2.0 then days * 0.01 else 2.0;
    Share((6 - d.priority + d.moscow) as real + age, d.estimate.value);
  }

  /** Priorities outside one to five count as the nearest of them; without a positive estimate the size stands in. */
  lemma WsjfFallsBack(d: Details, now: int)
    ensures d.priority < 1 ==> Wsjf(d, now) == Wsjf(d.(priority := 1), now)
    ensures d.priority > 5 ==> Wsjf(d, now) == Wsjf(d.(priority := 5), now)
    ensures d.estimate.None? || d.estimate.value <= 0.0 ==>
              var minutes := map[XS := 30.0, S := 60.0, M := 120.0, L := 240.0, XL := 480.0];
              Wsjf(d, now) == Wsjf(d.(estimate := Some(minutes[d.size])), now)
  {
  }

  lemma Quotients(cost: real, more: real, minutes: real, longer: real)
    requires 0.0 < cost <= more && 0.0 < minutes < longer
    ensures cost / minutes <= more / minutes && (cost < more ==> cost / minutes < more / minutes)
    ensures cost / longer < cost / minutes
  {
    Share(cost, minutes);
    Share(more, minutes);
    Share(cost, longer);
  }

  /** What is divided and by what, before and after a change of weight, age or estimate. */
  lemma WsjfIsQuotient(d: Details, now: int, moscow: nat, earlier: int, longer: real)
    returns (cost: real, more: real, minutes: real)
    requires earlier <= d.createdAt && longer > 0.0
    ensures 0.0 < cost <= more && minutes > 0.0 && Wsjf(d, now) == cost / minutes
    ensures d.estimate.Some? && d.estimate.value > 0.0 ==> minutes == d.estimate.value
    ensures Wsjf(d.(moscow := moscow), now) == (cost + (moscow - d.moscow) as real) / minutes
    ensures Wsjf(d.(createdAt := earlier), now) == more / minutes
    ensures Wsjf(d.(estimate := Some(longer)), now) == cost / longer
  {
    minutes := if d.estimate.Some? && d.estimate.value > 0.0 then d.estimate.value else Minutes(d.size);
    var clamped := if d.priority < 1 then 1 else if d.priority > 5 then 5 else d.priority;
    var days := if now > d.createdAt then (now - d.createdAt) as real / DAY_MS else 0.0;
    var days' := if now > earlier then (now - earlier) as real / DAY_MS else 0.0;
    cost := (6 - clamped + d.moscow) as real + if days * 0.01 < 2.0 then days * 0.01 else 2.0;
    more := (6 - clamped + d.moscow) as real + if days' * 0.01 < 2.0 then days' * 0.01 else 2.0;
  }

  /** A higher MoSCoW weight raises the score, more age never lowers it, and a longer estimate lowers it. */
  lemma WsjfIsMonotone(d: Details, now: int, moscow: nat, earlier: int, longer: real)
    requires moscow > d.moscow && earlier <= d.createdAt && longer > 0.0
    ensures Wsjf(d.(moscow := moscow), now) > Wsjf(d, now)
    ensures Wsjf(d.(createdAt := earlier), now) >= Wsjf(d, now)
    ensures d.estimate.Some? && 0.0 < d.estimate.value < longer ==>
              Wsjf(d.(estimate := Some(longer)), now) < Wsjf(d, now)
  {
    var cost, more, minutes := WsjfIsQuotient(d, now, moscow, earlier, longer);
    Quotients(cost, more, minutes, minutes + 1.0);
    Quotients(cost, cost + (moscow - d.moscow) as real, minutes, if longer > minutes then longer else minutes + 1.0);
  }

  // ---------------------------------------------------------------------------
  // The pick among its rivals
  // ---------------------------------------------------------------------------

  /** The rows that hold the criteria of a task as its children. */
  ghost function CriterionRows(nodes: seq<Node>, id: string): set<nat> {
    set i: nat | i < |nodes| && nodes[i].kind == AcceptanceCriterion && nodes[i].parentId == Some(id)
  }

  /** Criteria listed in the row, or else kept as children of a row with an id. */
  ghost function Criteria(nodes: seq<Node>, n: Node): nat {
    if n.id == "" || n.details.criteria >= 1 then n.details.criteria else |CriterionRows(nodes, n.id)|
  }

  ghost predicate SmallerSize(a: Size, b: Size) {
    a != b && (a == XS || b == XL || (a == S && b != XS) || (a == M && b == L))
  }

  /** A missing estimate counts as 999 minutes. */
  ghost function Estimated(d: Details): real {
    match d.estimate
    case Some(minutes) => minutes
    case None => 999.0
  }

  lemma CriteriaAreCounted(nodes: seq<Node>, n: Node)
    ensures CriteriaCount(nodes, n) == Criteria(nodes, n)
  {
    var test := (c: Node) => c.kind == AcceptanceCriterion && c.parentId == Some(n.id);
    SelectCounts(nodes, test);
    assert Places(nodes, test) == CriterionRows(nodes, n.id);
  }

  lemma {:induction false} SelectInOrder(nodes: seq<Node>, keep: Node -> bool, i: nat, j: nat)
    returns (i': nat, j': nat)
    requires i <= j < |Select(nodes, keep)|
    ensures i' <= j' < |nodes| && nodes[i'] == Select(nodes, keep)[i] && nodes[j'] == Select(nodes, keep)[j]
  {
    if keep(nodes[0]) && j == 0 {
      i', j' := 0, 0;
    } else if keep(nodes[0]) && i == 0 {
      var _, k := SelectInOrder(nodes[1..], keep, j - 1, j - 1);
      i', j' := 0, k + 1;
    } else {
      var less := if keep(nodes[0]) then 1 else 0;
      i', j' := SelectInOrder(nodes[1..], keep, i - less, j - less);
      i', j' := i' + 1, j' + 1;
    }
  }

  lemma LeadingInOrder(nodes: seq<Node>, edges: seq<Edge>, i: nat, j: nat) returns (i': nat, j': nat)
    requires i <= j < |Leading(Unblocked(nodes, edges), edges)|
    ensures i' <= j' < |nodes|
    ensures nodes[i'] == Leading(Unblocked(nodes, edges), edges)[i]
    ensures nodes[j'] == Leading(Unblocked(nodes, edges), edges)[j]
  {
    var candidates := Unblocked(nodes, edges);
    i', j' := i, j;
    if Select(candidates, IsFree(candidates, edges)) != [] {
      i', j' := SelectInOrder(candidates, IsFree(candidates, edges), i', j');
    }
    i', j' := SelectInOrder(Select(nodes, Eligible), IsUnblocked(nodes, edges), i', j');
    i', j' := SelectInOrder(nodes, Eligible, i', j');
  }

  /** The pick leads, and so does every rival of its standing. */
  lemma RivalLeads(nodes: seq<Node>, edges: seq<Edge>, now: int, n: Node)
    requires FindNextTask(nodes, edges, now).Some? && !FindNextTask(nodes, edges, now).value.allBlocked
    ensures var pick := FindNextTask(nodes, edges, now).value.node;
            var leading := Leading(Unblocked(nodes, edges), edges);
            && leading != [] && pick == FirstLeast(leading, Ahead(nodes, edges, now))
            && (Candidate(nodes, edges, n) && Outranked(nodes, edges, pick) ==> Outranked(nodes, edges, n))
            && (Candidate(nodes, edges, n) && (Outranked(nodes, edges, n) ==> Outranked(nodes, edges, pick)) ==>
                  n in leading)
  {
    var pick := FindNextTask(nodes, edges, now).value.node;
    CandidatesAreUnblocked(nodes, edges);
    BestIsLeading(nodes, edges, now);
    OutrankedIsPreceded(nodes, edges, n);
    OutrankedIsPreceded(nodes, edges, pick);
    LeadingMembers(Unblocked(nodes, edges), edges, n);
    LeadingMembers(Unblocked(nodes, edges), edges, pick);
  }

  /** The pick is not behind any rival, and in front of those that tie with it. */
  lemma PickAmongRivals(nodes: seq<Node>, edges: seq<Edge>, now: int, n: Node)
    requires FindNextTask(nodes, edges, now).Some? && !FindNextTask(nodes, edges, now).value.allBlocked
    requires n in Leading(Unblocked(nodes, edges), edges)
    ensures var pick := FindNextTask(nodes, edges, now).value.node;
            var before := Ahead(nodes, edges, now);
            && !before(n, pick)
            && (!before(pick, n) ==> exists i, j :: 0 <= i <= j < |nodes| && nodes[i] == pick && nodes[j] == n)
  {
    var leading, before := Leading(Unblocked(nodes, edges), edges), Ahead(nodes, edges, now);
    RivalLeads(nodes, edges, now, n);
    AheadIsWeakOrder(nodes, edges, now);
    var i := FirstLeastIsStable(leading, before);
    var j :| 0 <= j < |leading| && leading[j] == n;
    if i <= j { var i', j' := LeadingInOrder(nodes, edges, i, j); }
  }

  /**
   The unblocked task that is picked, against any other. No candidate has priority over it unless one
   has over each. Against a candidate `n` of the same standing, at least as many dependencies point at
   the pick; among equals its priority number is no larger; then its WSJF is no smaller, its size no
   larger, its estimate no longer, its criteria no fewer, it is no younger, and it stands no later.
   */
  lemma PickIsBest(nodes: seq<Node>, edges: seq<Edge>, now: int, n: Node)
    requires FindNextTask(nodes, edges, now).Some? && !FindNextTask(nodes, edges, now).value.allBlocked
    requires Candidate(nodes, edges, n)
    ensures Outranked(nodes, edges, FindNextTask(nodes, edges, now).value.node) ==> Outranked(nodes, edges, n)
    ensures var pick := FindNextTask(nodes, edges, now).value.node;
            var impact, impact' := |Dependents(edges, pick.id)|, |Dependents(edges, n.id)|;
            var d, d' := pick.details, n.details;
            var sameWsjf := impact == impact' && d.priority == d'.priority && Wsjf(d, now) == Wsjf(d', now);
            var sameWork := sameWsjf && d.size == d'.size && Estimated(d) == Estimated(d');
            var same := sameWork && Criteria(nodes, pick) == Criteria(nodes, n);
            (Outranked(nodes, edges, n) ==> Outranked(nodes, edges, pick)) ==>
              && impact >= impact'
              && (impact == impact' ==> d.priority <= d'.priority)
              && (impact == impact' && d.priority == d'.priority ==> Wsjf(d, now) >= Wsjf(d', now))
              && (sameWsjf ==> !SmallerSize(d'.size, d.size))
              && (sameWsjf && d.size == d'.size ==> Estimated(d) <= Estimated(d'))
              && (sameWork ==> Criteria(nodes, pick) >= Criteria(nodes, n))
              && (same ==> d.createdAt <= d'.createdAt)
              && (same && d.createdAt == d'.createdAt ==>
                    exists i, j :: 0 <= i <= j < |nodes| && nodes[i] == pick && nodes[j] == n)
  {
    var pick := FindNextTask(nodes, edges, now).value.node;
    RivalLeads(nodes, edges, now, n);
    ImpactCounts(pick.id, edges);
    ImpactCounts(n.id, edges);
    CriteriaAreCounted(nodes, pick);
    CriteriaAreCounted(nodes, n);
    if n in Leading(Unblocked(nodes, edges), edges) { PickAmongRivals(nodes, edges, now, n); }
  }
}
