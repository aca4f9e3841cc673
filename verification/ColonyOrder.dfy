/**
 When a colony run respects dependencies (src/swarming/run.ts:113-131, src/core/planner/next-task.ts:134-166):
 the picker hands out a waiting task when every eligible task waits, so the order is kept exactly when no set of
 tasks is stuck.
 */
module ColonyOrder {
  import opened Prelude
  import opened ColonyGraph
  import opened Picker
  import opened Colony
  import opened ColonyTheorems

  ghost predicate ClosedBefore(cfg: Config, trips: seq<Trip>, j: nat, id: string)
    requires j <= |trips|
  {
    exists i :: 0 <= i < j && trips[i].id == id && Accepted(cfg, trips[i].reply)
  }

  /** Each trip comes after its task's dependencies: done at the start, or closed by an earlier trip. */
  ghost predicate InDependencyOrder(cfg: Config, nodes: seq<Node>, edges: seq<Edge>, trips: seq<Trip>) {
    forall j, e | 0 <= j < |trips| && e in edges && e.relation == DependsOn && e.source == trips[j].id ::
      IsDone(nodes, e.target) || ClosedBefore(cfg, trips, j, e.target)
  }

  ghost predicate OpenRow(nodes: seq<Node>, id: string) {
    exists n <- nodes :: n.id == id && Open(n)
  }

  ghost predicate EligibleRow(nodes: seq<Node>, id: string) {
    exists n <- nodes :: n.id == id && Eligible(n)
  }

  /** The task depends on something not done that is in the set, or that cannot be picked at all. */
  ghost predicate Waits(nodes: seq<Node>, edges: seq<Edge>, ids: set<string>, id: string) {
    exists e <- edges :: e.relation == DependsOn && e.source == id && !IsDone(nodes, e.target)
                         && (e.target in ids || !EligibleRow(nodes, e.target))
  }

  /** Open tasks that all wait for each other or for something that cannot be picked. */
  ghost predicate Stuck(nodes: seq<Node>, edges: seq<Edge>, ids: set<string>) {
    ids != {} && forall id | id in ids :: OpenRow(nodes, id) && Waits(nodes, edges, ids, id)
  }

  ghost predicate NothingStuck(nodes: seq<Node>, edges: seq<Edge>) {
    forall ids :: !Stuck(nodes, edges, ids)
  }

  // ---------------------------------------------------------------------------
  // One round
  // ---------------------------------------------------------------------------

  ghost function EligibleIds(nodes: seq<Node>): set<string> {
    set n | n in nodes && Eligible(n) :: n.id
  }

  /** When nothing is stuck the picker hands out a task whose dependencies are done. */
  lemma PickIsUnblocked(nodes: seq<Node>, edges: seq<Edge>, now: int)
    requires NothingStuck(nodes, edges) && FindNextTask(nodes, edges, now).Some?
    ensures var id := FindNextTask(nodes, edges, now).value.node.id;
            forall e <- edges | e.relation == DependsOn && e.source == id :: IsDone(nodes, e.target)
  {
    PickerContract(nodes, edges, now);
    UnblockedMembers(nodes, edges);
    var pick := FindNextTask(nodes, edges, now).value;
    if pick.allBlocked {
      var ids := EligibleIds(nodes);
      assert pick.node.id in ids;
      forall id | id in ids ensures OpenRow(nodes, id) && Waits(nodes, edges, ids, id) {
        var n :| n in nodes && Eligible(n) && n.id == id;
        assert n !in Unblocked(nodes, edges);
      }
      assert Stuck(nodes, edges, ids);
    } else {
      LeadingMembers(Unblocked(nodes, edges), edges, pick.node);
    }
  }

  /** Rows may move so that nothing gets stuck: open rows were open, done ones stay, eligible ones stay or get done. */
  ghost predicate Progress(before: seq<Node>, after: seq<Node>) {
    && (forall id | OpenRow(after, id) :: OpenRow(before, id))
    && (forall id | IsDone(before, id) :: IsDone(after, id))
    && (forall id | EligibleRow(before, id) :: EligibleRow(after, id) || IsDone(after, id))
  }

  lemma ProgressKeepsUnstuck(before: seq<Node>, after: seq<Node>, edges: seq<Edge>)
    requires NothingStuck(before, edges) && Progress(before, after)
    ensures NothingStuck(after, edges)
  {
    forall ids | Stuck(after, edges, ids) ensures Stuck(before, edges, ids) {
      forall id | id in ids ensures OpenRow(before, id) && Waits(before, edges, ids, id) {
        assert OpenRow(after, id) && Waits(after, edges, ids, id);
      }
    }
  }

  /** Row by row: closed rows were open, other rows keep what matters. */
  ghost predicate RowMoves(before: Node, after: Node) {
    && before.id == after.id && (Open(after) ==> Open(before)) && (before.status == Done ==> after.status == Done)
    && (Eligible(before) ==> Eligible(after) || after.status == Done)
  }

  lemma RowsMakeProgress(before: seq<Node>, after: seq<Node>)
    requires |before| == |after| && forall i | 0 <= i < |before| :: RowMoves(before[i], after[i])
    ensures Progress(before, after)
  {
    forall id | OpenRow(after, id) ensures OpenRow(before, id) {
      var i :| 0 <= i < |after| && after[i].id == id && Open(after[i]);
      assert RowMoves(before[i], after[i]) && before[i] in before;
    }
    forall id | IsDone(before, id) ensures IsDone(after, id) {
      var i :| 0 <= i < |before| && before[i].id == id && before[i].status == Done;
      assert RowMoves(before[i], after[i]) && after[i] in after;
    }
    forall id | EligibleRow(before, id) ensures EligibleRow(after, id) || IsDone(after, id) {
      var i :| 0 <= i < |before| && before[i].id == id && Eligible(before[i]);
      assert RowMoves(before[i], after[i]) && after[i] in after;
    }
  }

  lemma DoneRowsAreOld(before: seq<Node>, after: seq<Node>, x: string)
    requires |before| == |after| && IsDone(after, x)
    requires forall i | 0 <= i < |before| && after[i].id == x && after[i].status == Done :: after[i] == before[i]
    ensures IsDone(before, x)
  {
    var i :| 0 <= i < |after| && after[i].id == x && after[i].status == Done;
    assert before[i] in before;
  }

  lemma HousekeepingIsProgress(w: World, now: int)
    ensures Progress(w.nodes, Housekeep(w, now).nodes)
    ensures forall id :: IsDone(Housekeep(w, now).nodes, id) ==> IsDone(w.nodes, id)
  {
    var kept := Housekeep(w, now).nodes;
    ReclaimAt(w.nodes, Sweep(w.locks, now));
    RowsMakeProgress(w.nodes, kept);
    forall id | IsDone(kept, id) ensures IsDone(w.nodes, id) { DoneRowsAreOld(w.nodes, kept, id); }
  }

  lemma ClosingIsProgress(nodes: seq<Node>, id: string)
    ensures Progress(nodes, SetStatus(nodes, id, Done))
    ensures forall x :: IsDone(SetStatus(nodes, id, Done), x) ==> IsDone(nodes, x) || x == id
  {
    var after := SetStatus(nodes, id, Done);
    SetStatusAt(nodes, id, Done);
    RowsMakeProgress(nodes, after);
    forall x | IsDone(after, x) && x != id ensures IsDone(nodes, x) { DoneRowsAreOld(nodes, after, x); }
  }

  // ---------------------------------------------------------------------------
  // Whole runs
  // ---------------------------------------------------------------------------

  lemma CycleKeepsEdges(w: World, cfg: Config, agentId: string, round: Round)
    ensures Cycle(w, cfg, agentId, round, true).0.edges == w.edges
  {
  }

  lemma RoundKeepsEdges(w: World, cfg: Config, weather: nat -> Round, k: nat)
    requires RoundOf(w, cfg, weather, k).0.trips != []
    ensures RoundOf(w, cfg, weather, k).0.world.edges == w.edges
  {
    RoundShape(w, cfg, weather, k);
    CycleKeepsEdges(Housekeep(w, weather(k).sweepTime), cfg, AgentId(cfg, k), weather(k));
  }

  /** The trip of a round, and the rows it leaves when its reply is accepted. */
  lemma AcceptedRound(w: World, cfg: Config, weather: nat -> Round, k: nat)
    requires RoundOf(w, cfg, weather, k).0.trips != []
    ensures var kept := Housekeep(w, weather(k).sweepTime);
            var (o, on) := RoundOf(w, cfg, weather, k);
            && |o.trips| == 1 && FindNextTask(kept.nodes, w.edges, weather(k).pickTime).Some?
            && o.trips[0].id == FindNextTask(kept.nodes, w.edges, weather(k).pickTime).value.node.id
            && (on && !Rejected(cfg, o.trips[0].reply) ==>
                  Accepted(cfg, o.trips[0].reply) && o.world.nodes == SetStatus(kept.nodes, o.trips[0].id, Done))
  {
    var kept := Housekeep(w, weather(k).sweepTime);
    RoundShape(w, cfg, weather, k);
    RoundNodes(w, cfg, weather, k);
    CycleOwnsLeaseIffFree(kept, cfg, AgentId(cfg, k), weather(k));
  }

  /** Putting an accepted trip in front of a run that keeps the order from then on. */
  lemma OrderInFront(cfg: Config, nodes: seq<Node>, mid: seq<Node>, edges: seq<Edge>, trip: Trip, trips: seq<Trip>)
    requires forall e <- edges | e.relation == DependsOn && e.source == trip.id :: IsDone(nodes, e.target)
    requires trips != [] ==> Accepted(cfg, trip.reply)
    requires forall x :: IsDone(mid, x) ==> IsDone(nodes, x) || x == trip.id
    requires InDependencyOrder(cfg, mid, edges, trips)
    ensures InDependencyOrder(cfg, nodes, edges, [trip] + trips)
  {
    var all := [trip] + trips;
    forall j, e | 0 <= j < |all| && e in edges && e.relation == DependsOn && e.source == all[j].id
      ensures IsDone(nodes, e.target) || ClosedBefore(cfg, all, j, e.target)
    {
      if j > 0 {
        assert e.source == trips[j - 1].id;
        if IsDone(mid, e.target) {
          assert e.target == trip.id ==> all[0].id == e.target;
        } else {
          var i :| 0 <= i < j - 1 && trips[i].id == e.target && Accepted(cfg, trips[i].reply);
          assert all[i + 1] == trips[i];
        }
      }
    }
  }

  lemma NextStartIsUnstuck(w: World, cfg: Config, weather: nat -> Round, k: nat)
    requires NothingStuck(Housekeep(w, weather(k).sweepTime).nodes, w.edges)
    requires var (o, on) := RoundOf(w, cfg, weather, k);
             on && o.trips != [] && !Rejected(cfg, o.trips[0].reply)
    ensures var next := RoundOf(w, cfg, weather, k).0.world;
            next.edges == w.edges && NothingStuck(Housekeep(next, weather(k + 1).sweepTime).nodes, next.edges)
  {
    var kept := Housekeep(w, weather(k).sweepTime).nodes;
    var first := RoundOf(w, cfg, weather, k).0;
    AcceptedRound(w, cfg, weather, k);
    RoundKeepsEdges(w, cfg, weather, k);
    ClosingIsProgress(kept, first.trips[0].id);
    ProgressKeepsUnstuck(kept, first.world.nodes, w.edges);
    HousekeepingIsProgress(first.world, weather(k + 1).sweepTime);
    ProgressKeepsUnstuck(first.world.nodes, Housekeep(first.world, weather(k + 1).sweepTime).nodes, w.edges);
  }

  /** A first round without a rejected reply, in front of a rest that keeps the order from the rows it leaves. */
  lemma FirstTripKeepsOrder(w: World, cfg: Config, weather: nat -> Round, k: nat, rest: seq<Trip>)
    requires NothingStuck(Housekeep(w, weather(k).sweepTime).nodes, w.edges)
    requires var (o, on) := RoundOf(w, cfg, weather, k);
             && o.trips != [] && !Rejected(cfg, o.trips[0].reply)
             && (if on then InDependencyOrder(cfg, o.world.nodes, w.edges, rest) else rest == [])
    ensures InDependencyOrder(cfg, w.nodes, w.edges, RoundOf(w, cfg, weather, k).0.trips + rest)
  {
    var (first, on) := RoundOf(w, cfg, weather, k);
    var kept, trip := Housekeep(w, weather(k).sweepTime).nodes, first.trips[0];
    AcceptedRound(w, cfg, weather, k);
    PickIsUnblocked(kept, w.edges, weather(k).pickTime);
    HousekeepingIsProgress(w, weather(k).sweepTime);
    ClosingIsProgress(kept, trip.id);
    assert first.trips == [trip];
    OrderInFront(cfg, w.nodes, if on then first.world.nodes else kept, w.edges, trip, rest);
  }

  /** When nothing is stuck after the first housekeeping, a run without a rejected reply keeps the order. */
  lemma {:induction false} UnstuckRunKeepsOrder(w: World, cfg: Config, weather: nat -> Round, k: nat)
    requires NothingStuck(Housekeep(w, weather(k).sweepTime).nodes, w.edges)
    requires forall t <- Run(w, cfg, weather, k).trips :: !Rejected(cfg, t.reply)
    ensures InDependencyOrder(cfg, w.nodes, w.edges, Run(w, cfg, weather, k).trips)
    decreases cfg.maxRounds - k
  {
    var (first, on) := RoundOf(w, cfg, weather, k);
    RoundShape(w, cfg, weather, k);
    if first.trips == [] {
    } else {
      var rest := if on then Run(first.world, cfg, weather, k + 1).trips else [];
      assert Run(w, cfg, weather, k).trips == first.trips + rest;
      assert first.trips[0] in Run(w, cfg, weather, k).trips;
      if on {
        NextStartIsUnstuck(w, cfg, weather, k);
        UnstuckRunKeepsOrder(first.world, cfg, weather, k + 1);
      }
      FirstTripKeepsOrder(w, cfg, weather, k, rest);
    }
  }

  // ---------------------------------------------------------------------------
  // The converse
  // ---------------------------------------------------------------------------

  /** Housekeeping twice at the same time changes nothing more. */
  lemma HousekeptTwice(w: World, now: int)
    ensures Housekeep(Housekeep(w, now), now) == Housekeep(w, now)
  {
    var kept := Housekeep(w, now);
    assert Sweep(kept.locks, now) == kept.locks;
    ReclaimAt(w.nodes, kept.locks);
    ReclaimAt(kept.nodes, kept.locks);
    assert Housekeep(kept, now).nodes == kept.nodes;
  }

  lemma FreedIsOnlyCounted(kept: World, freed: nat, freed': nat, cfg: Config, weather: nat -> Round, k: nat)
    ensures var (o, on) := CycleRound(kept, freed, cfg, weather, k);
            CycleRound(kept, freed', cfg, weather, k) == (o.(reclaimed := freed'), on)
  {
  }

  lemma HousekeptRoundIsSame(w: World, cfg: Config, weather: nat -> Round, k: nat)
    ensures var (o, on) := RoundOf(w, cfg, weather, k);
            var (o', on') := RoundOf(Housekeep(w, weather(k).sweepTime), cfg, weather, k);
            && on' == on && o'.trips == o.trips && o'.rounds == o.rounds && o'.aborted == o.aborted
            && o'.world.spent == o.world.spent && (on ==> o'.world == o.world)
  {
    var kept := Housekeep(w, weather(k).sweepTime);
    HousekeptTwice(w, weather(k).sweepTime);
    FreedIsOnlyCounted(kept, CountOrphans(w.nodes, kept.locks), CountOrphans(kept.nodes, kept.locks), cfg, weather, k);
  }

  lemma RunIsFirstAndRest(w: World, cfg: Config, weather: nat -> Round, k: nat)
    ensures var (first, on) := RoundOf(w, cfg, weather, k);
            Run(w, cfg, weather, k) == if on then After(first, Run(first.world, cfg, weather, k + 1)) else first
  {
  }

  /** A run executes the same trips when its first housekeeping has been done before. */
  lemma HousekeptRunIsSame(w: World, cfg: Config, weather: nat -> Round)
    ensures var o, o' := Run(w, cfg, weather, 0), Run(Housekeep(w, weather(0).sweepTime), cfg, weather, 0);
            && o'.trips == o.trips && o'.rounds == o.rounds && o'.aborted == o.aborted
            && o'.world.spent == o.world.spent
  {
    HousekeptRoundIsSame(w, cfg, weather, 0);
    RunIsFirstAndRest(w, cfg, weather, 0);
    RunIsFirstAndRest(Housekeep(w, weather(0).sweepTime), cfg, weather, 0);
  }

  ghost predicate WaitsForever(nodes: seq<Node>, edges: seq<Edge>, ids: set<string>, id: string) {
    exists e <- edges :: e.relation == DependsOn && e.source == id && !IsDone(nodes, e.target)
                         && (e.target in ids || !OpenRow(nodes, e.target))
  }

  /** Tasks that could be picked at the start, each waiting for another of them or for what can never be done. */
  ghost predicate Doomed(nodes: seq<Node>, edges: seq<Edge>, ids: set<string>) {
    ids != {} && forall id | id in ids :: EligibleRow(nodes, id) && WaitsForever(nodes, edges, ids, id)
  }

  /** A run that stops below its cap and its ceiling has taken every task that was eligible at its start. */
  lemma EligibleIsTaken(w: World, cfg: Config, weather: nat -> Round, id: string)
    requires UniqueIds(w.nodes) && FreshFindings(w.nodes, weather, 0) && EligibleRow(w.nodes, id)
    requires var o := Run(w, cfg, weather, 0);
             !o.aborted && o.rounds < cfg.maxRounds && !Exceeded(cfg.ceiling, o.world.spent)
    ensures exists t <- Run(w, cfg, weather, 0).trips :: t.id == id
  {
    var i :| 0 <= i < |w.nodes| && w.nodes[i].id == id && Eligible(w.nodes[i]);
    QueueIsWorkedOff(w, cfg, weather, i);
    StatusIsEarned(w, cfg, weather, i);
  }

  lemma {:induction false} FirstTripIn(trips: seq<Trip>, ids: set<string>) returns (j: nat)
    requires exists t <- trips :: t.id in ids
    ensures j < |trips| && trips[j].id in ids && forall i | 0 <= i < j :: trips[i].id !in ids
  {
    if trips[0].id in ids {
      j := 0;
    } else {
      assert trips == [trips[0]] + trips[1..];
      var k := FirstTripIn(trips[1..], ids);
      j := k + 1;
      forall i | 0 <= i < j ensures trips[i].id !in ids {
        assert i > 0 ==> trips[i] == trips[1..][i - 1];
      }
    }
  }

  lemma TripsTakeOpenRows(w: World, cfg: Config, weather: nat -> Round, i: nat)
    requires UniqueIds(w.nodes) && FreshFindings(w.nodes, weather, 0) && i < |Run(w, cfg, weather, 0).trips|
    ensures OpenRow(w.nodes, Run(w, cfg, weather, 0).trips[i].id)
  {
    RunIsLawful(w, cfg, weather, 0);
    var t := Run(w, cfg, weather, 0).trips[i];
    assert TripIsOpen(w.nodes, t);
    var k :| 0 <= k < |w.nodes| && w.nodes[k].id == t.id && Open(w.nodes[k]) && TierOf(w.nodes[k]) == t.tier;
    assert w.nodes[k] in w.nodes;
  }

  /** Doomed tasks break the order of every run that stops below its cap and its ceiling. */
  lemma DoomedRunBreaksOrder(w: World, cfg: Config, weather: nat -> Round, ids: set<string>)
    requires UniqueIds(w.nodes) && FreshFindings(w.nodes, weather, 0) && Doomed(w.nodes, w.edges, ids)
    requires var o := Run(w, cfg, weather, 0);
             !o.aborted && o.rounds < cfg.maxRounds && !Exceeded(cfg.ceiling, o.world.spent)
    ensures !InDependencyOrder(cfg, w.nodes, w.edges, Run(w, cfg, weather, 0).trips)
  {
    var trips := Run(w, cfg, weather, 0).trips;
    var some :| some in ids;
    EligibleIsTaken(w, cfg, weather, some);
    var j := FirstTripIn(trips, ids);
    assert WaitsForever(w.nodes, w.edges, ids, trips[j].id);
    var e :| e in w.edges && e.relation == DependsOn && e.source == trips[j].id && !IsDone(w.nodes, e.target)
             && (e.target in ids || !OpenRow(w.nodes, e.target));
    forall i | 0 <= i < j ensures trips[i].id != e.target {
      TripsTakeOpenRows(w, cfg, weather, i);
    }
    assert !ClosedBefore(cfg, trips, j, e.target);
  }

  lemma StuckIsDoomed(nodes: seq<Node>, edges: seq<Edge>, ids: set<string>)
    requires Stuck(nodes, edges, ids) && forall n <- nodes | Open(n) :: Eligible(n)
    ensures Doomed(nodes, edges, ids)
  {
    forall id | id in ids ensures EligibleRow(nodes, id) && WaitsForever(nodes, edges, ids, id) {
      assert OpenRow(nodes, id) && Waits(nodes, edges, ids, id);
    }
  }

  lemma SameOrder(cfg: Config, nodes: seq<Node>, kept: seq<Node>, edges: seq<Edge>, trips: seq<Trip>)
    requires forall id :: IsDone(nodes, id) ==> IsDone(kept, id)
    requires InDependencyOrder(cfg, nodes, edges, trips)
    ensures InDependencyOrder(cfg, kept, edges, trips)
  {
  }

  /**
   The exact condition: with no task held by another lease after the first housekeeping, a run that
   works off its queue with accepted replies keeps the order of dependencies exactly when nothing is
   stuck at its start.
   */
  lemma OrderKeptIff(w: World, cfg: Config, weather: nat -> Round)
    requires UniqueIds(w.nodes) && FreshFindings(w.nodes, weather, 0)
    requires forall n <- Housekeep(w, weather(0).sweepTime).nodes | Open(n) :: Eligible(n)
    requires var o := Run(w, cfg, weather, 0);
             && !o.aborted && o.rounds < cfg.maxRounds && !Exceeded(cfg.ceiling, o.world.spent)
             && forall t <- o.trips :: Accepted(cfg, t.reply)
    ensures InDependencyOrder(cfg, w.nodes, w.edges, Run(w, cfg, weather, 0).trips) <==>
            NothingStuck(Housekeep(w, weather(0).sweepTime).nodes, w.edges)
  {
    var kept := Housekeep(w, weather(0).sweepTime);
    var trips := Run(w, cfg, weather, 0).trips;
    if NothingStuck(kept.nodes, w.edges) {
      UnstuckRunKeepsOrder(w, cfg, weather, 0);
    } else {
      var ids :| Stuck(kept.nodes, w.edges, ids);
      StuckIsDoomed(kept.nodes, w.edges, ids);
      HousekeptRunIsSame(w, cfg, weather);
      HousekeepKeepsIds(w, weather(0).sweepTime);
      DoomedRunBreaksOrder(kept, cfg, weather, ids);
      HousekeepingIsProgress(w, weather(0).sweepTime);
      if InDependencyOrder(cfg, w.nodes, w.edges, trips) { SameOrder(cfg, w.nodes, kept.nodes, w.edges, trips); }
    }
  }
}
