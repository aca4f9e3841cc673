/**
 What a whole colony run promises (src/swarming/run.ts, src/swarming/ant-runner.ts):
 termination and accounting, honesty of `done`, findings, spend, attribution, orphan recovery.
 */
module ColonyTheorems {
  import opened Prelude
  import opened ColonyGraph
  import opened Picker
  import opened Colony

  /** A task the colony may still work on. */
  predicate Open(n: Node) {
    (n.kind == Task || n.kind == Subtask) && !n.flagged
    && (n.status == Backlog || n.status == Ready || n.status == InProgress)
  }

  predicate Accepted(cfg: Config, reply: Reply) {
    reply.Reply? && cfg.accepts(reply.text)
  }

  predicate Rejected(cfg: Config, reply: Reply) {
    reply.Reply? && !cfg.accepts(reply.text)
  }

  function Verdict(cfg: Config, reply: Reply): Status {
    if Accepted(cfg, reply) then Done else if Rejected(cfg, reply) then Blocked else InProgress
  }

  /** One finding per rejected reply, in the order of the rounds. */
  function Findings(cfg: Config, trips: seq<Trip>, weather: nat -> Round, k: nat): seq<Node> {
    if trips == [] then []
    else
      (if Rejected(cfg, trips[0].reply) then [Finding(weather(k), trips[0].id)] else [])
      + Findings(cfg, trips[1..], weather, k + 1)
  }

  /** How one row fares: the verdict of its own trip, or at most being recycled. */
  ghost predicate Fares(cfg: Config, before: Node, after: Node, trips: seq<Trip>) {
    && after == before.(status := after.status)
    && (forall t <- trips | t.id == before.id :: after.status == Verdict(cfg, t.reply))
    && ((forall t <- trips :: t.id != before.id) ==>
          after.status == before.status || (before.status == InProgress && after.status == Backlog))
  }

  /** The trip took an open row and asked the tier that row is routed to. */
  ghost predicate TripIsOpen(nodes: seq<Node>, t: Trip) {
    exists i :: 0 <= i < |nodes| && nodes[i].id == t.id && Open(nodes[i]) && TierOf(nodes[i]) == t.tier
  }

  ghost predicate RowsFare(cfg: Config, before: seq<Node>, after: seq<Node>, trips: seq<Trip>) {
    |before| <= |after| && forall i | 0 <= i < |before| :: Fares(cfg, before[i], after[i], trips)
  }

  ghost predicate TripsAreOpenAndDistinct(nodes: seq<Node>, trips: seq<Trip>) {
    && (forall t <- trips :: TripIsOpen(nodes, t))
    && (forall i, j | 0 <= i < j < |trips| :: trips[i].id != trips[j].id)
  }

  ghost predicate Lawful(cfg: Config, weather: nat -> Round, k: nat, nodes: seq<Node>, o: Outcome) {
    && RowsFare(cfg, nodes, o.world.nodes, o.trips)
    && o.world.nodes[|nodes|..] == Findings(cfg, o.trips, weather, k)
    && TripsAreOpenAndDistinct(nodes, o.trips)
  }

  // ---------------------------------------------------------------------------
  // One round
  // ---------------------------------------------------------------------------

  /** The cycle asks the picker again after the gate; with one driver that answer is never null. */
  lemma LateBreakIsNeverTaken(w: World, cfg: Config, agentId: string, round: Round)
    requires !Exceeded(cfg.ceiling, w.spent)
    requires FindNextTask(w.nodes, w.edges, round.gateTime).Some?
    ensures var result := Cycle(w, cfg, agentId, round, true).1;
            result.DoneTask? || result.BlockedTask? || result.Aborted?
  {
    PickerContract(w.nodes, w.edges, round.gateTime);
    PickerContract(w.nodes, w.edges, round.pickTime);
  }

  lemma HousekeepFares(w: World, cfg: Config, now: int)
    ensures var kept := Housekeep(w, now).nodes;
            |kept| == |w.nodes| && RowsFare(cfg, w.nodes, kept, [])
    ensures var kept := Housekeep(w, now).nodes;
            forall i | 0 <= i < |w.nodes| && Open(kept[i]) ::
              Open(w.nodes[i]) && w.nodes[i].id == kept[i].id && TierOf(w.nodes[i]) == TierOf(kept[i])
  {
    ReclaimAt(w.nodes, Sweep(w.locks, now));
  }

  lemma {:induction false} StatusOverwritten(nodes: seq<Node>, id: string, first: Status, last: Status)
    ensures SetStatus(SetStatus(nodes, id, first), id, last) == SetStatus(nodes, id, last)
  {
    if nodes == [] {
    } else {
      StatusOverwritten(nodes[1..], id, first, last);
    }
  }

  ghost function NewFinding(cfg: Config, round: Round, id: string): seq<Node> {
    if Rejected(cfg, round.reply) then [Finding(round, id)] else []
  }

  /** One cycle gives the picked row its verdict and appends at most the finding. */
  lemma CycleNodes(w: World, cfg: Config, agentId: string, round: Round)
    requires !Exceeded(cfg.ceiling, w.spent)
    requires FindNextTask(w.nodes, w.edges, round.pickTime).Some?
    ensures var id := FindNextTask(w.nodes, w.edges, round.pickTime).value.node.id;
            Cycle(w, cfg, agentId, round, true).0.nodes
            == SetStatus(w.nodes, id, Verdict(cfg, round.reply)) + NewFinding(cfg, round, id)
  {
    var id := FindNextTask(w.nodes, w.edges, round.pickTime).value.node.id;
    StatusOverwritten(w.nodes, id, InProgress, Done);
    StatusOverwritten(w.nodes, id, InProgress, Blocked);
  }

  lemma PickedIsOpen(nodes: seq<Node>, edges: seq<Edge>, now: int, reply: Reply)
    ensures FindNextTask(nodes, edges, now).Some? ==>
              var node := FindNextTask(nodes, edges, now).value.node;
              TripIsOpen(nodes, Trip(node.id, TierOf(node), reply))
  {
    PickerContract(nodes, edges, now);
    if FindNextTask(nodes, edges, now).Some? {
      var node := FindNextTask(nodes, edges, now).value.node;
      var i :| 0 <= i < |nodes| && nodes[i] == node;
    }
  }

  /** A round that executed a task: the rows after it. */
  lemma RoundNodes(w: World, cfg: Config, weather: nat -> Round, k: nat)
    ensures var (o, on) := RoundOf(w, cfg, weather, k);
            var kept := Housekeep(w, weather(k).sweepTime).nodes;
            && |o.trips| <= 1
            && (on ==> |o.trips| == 1 && o.trips[0].reply.Reply?)
            && (o.trips == [] ==> o.world.nodes == w.nodes || o.world.nodes == kept)
            && (o.trips != [] ==>
                  && o.trips[0].reply == weather(k).reply
                  && TripIsOpen(kept, o.trips[0])
                  && o.world.nodes == SetStatus(kept, o.trips[0].id, Verdict(cfg, weather(k).reply))
                                      + NewFinding(cfg, weather(k), o.trips[0].id))
  {
    var kept := Housekeep(w, weather(k).sweepTime);
    if k < cfg.maxRounds && !Exceeded(cfg.ceiling, w.spent)
       && FindNextTask(kept.nodes, kept.edges, weather(k).gateTime).Some? {
      LateBreakIsNeverTaken(kept, cfg, AgentId(cfg, k), weather(k));
      CycleNodes(kept, cfg, AgentId(cfg, k), weather(k));
      PickedIsOpen(kept.nodes, kept.edges, weather(k).pickTime, weather(k).reply);
    }
  }

  lemma VerdictRow(cfg: Config, before: Node, kept: Node, after: Node, trip: Trip)
    requires Fares(cfg, before, kept, [])
    requires after == if kept.id == trip.id then kept.(status := Verdict(cfg, trip.reply)) else kept
    ensures Fares(cfg, before, after, [trip])
  {
    assert trip in [trip];
  }

  lemma VerdictFares(cfg: Config, before: seq<Node>, kept: seq<Node>, trip: Trip, appended: seq<Node>)
    requires |kept| == |before| && RowsFare(cfg, before, kept, [])
    ensures RowsFare(cfg, before, SetStatus(kept, trip.id, Verdict(cfg, trip.reply)) + appended, [trip])
    ensures (SetStatus(kept, trip.id, Verdict(cfg, trip.reply)) + appended)[|before|..] == appended
  {
    var after := SetStatus(kept, trip.id, Verdict(cfg, trip.reply));
    SetStatusAt(kept, trip.id, Verdict(cfg, trip.reply));
    forall i | 0 <= i < |before| ensures Fares(cfg, before[i], (after + appended)[i], [trip]) {
      VerdictRow(cfg, before[i], kept[i], after[i], trip);
    }
  }

  lemma RoundRows(w: World, cfg: Config, weather: nat -> Round, k: nat)
    ensures var o := RoundOf(w, cfg, weather, k).0;
            && RowsFare(cfg, w.nodes, o.world.nodes, o.trips)
            && o.world.nodes[|w.nodes|..] == Findings(cfg, o.trips, weather, k)
  {
    var o := RoundOf(w, cfg, weather, k).0;
    var kept := Housekeep(w, weather(k).sweepTime).nodes;
    RoundNodes(w, cfg, weather, k);
    HousekeepFares(w, cfg, weather(k).sweepTime);
    if o.trips != [] {
      var trip := o.trips[0];
      assert o.trips == [trip];
      VerdictFares(cfg, w.nodes, kept, trip, NewFinding(cfg, weather(k), trip.id));
      assert Findings(cfg, [trip], weather, k) == NewFinding(cfg, weather(k), trip.id);
    }
  }

  lemma OpenBefore(nodes: seq<Node>, kept: seq<Node>, t: Trip)
    requires |kept| == |nodes| && TripIsOpen(kept, t)
    requires forall i | 0 <= i < |nodes| && Open(kept[i]) ::
               Open(nodes[i]) && nodes[i].id == kept[i].id && TierOf(nodes[i]) == TierOf(kept[i])
    ensures TripIsOpen(nodes, t)
  {
    var i :| 0 <= i < |kept| && kept[i].id == t.id && Open(kept[i]) && TierOf(kept[i]) == t.tier;
    assert nodes[i].id == t.id && Open(nodes[i]);
  }

  lemma RoundTrips(w: World, cfg: Config, weather: nat -> Round, k: nat)
    ensures TripsAreOpenAndDistinct(w.nodes, RoundOf(w, cfg, weather, k).0.trips)
  {
    var o := RoundOf(w, cfg, weather, k).0;
    var kept := Housekeep(w, weather(k).sweepTime).nodes;
    RoundNodes(w, cfg, weather, k);
    HousekeepFares(w, cfg, weather(k).sweepTime);
    if o.trips != [] {
      OpenBefore(w.nodes, kept, o.trips[0]);
      assert o.trips == [o.trips[0]];
    }
  }

  lemma RoundIsLawful(w: World, cfg: Config, weather: nat -> Round, k: nat)
    ensures Lawful(cfg, weather, k, w.nodes, RoundOf(w, cfg, weather, k).0)
  {
    RoundRows(w, cfg, weather, k);
    RoundTrips(w, cfg, weather, k);
  }

  // ---------------------------------------------------------------------------
  // Whole runs
  // ---------------------------------------------------------------------------

  /** A row that is no longer open is never taken again, and keeps its status unless in progress. */
  lemma ClosedRowStays(cfg: Config, nodes: seq<Node>, o: seq<Node>, trips: seq<Trip>, i: nat)
    requires UniqueIds(nodes) && i < |nodes| && !Open(nodes[i]) && nodes[i].status != InProgress
    requires RowsFare(cfg, nodes, o, trips) && TripsAreOpenAndDistinct(nodes, trips)
    ensures forall t <- trips :: t.id != nodes[i].id
    ensures o[i] == nodes[i]
  {
    forall t | t in trips
      ensures t.id != nodes[i].id
    {
      var j :| 0 <= j < |nodes| && nodes[j].id == t.id && Open(nodes[j]);
    }
    assert Fares(cfg, nodes[i], o[i], trips);
  }

  lemma FaresCompose(cfg: Config, before: Node, mid: Node, after: Node, trip: Trip, trips: seq<Trip>)
    requires Fares(cfg, before, mid, [trip]) && Fares(cfg, mid, after, trips) && trip.reply.Reply?
    requires trip.id == before.id ==> after == mid && forall t <- trips :: t.id != before.id
    ensures Fares(cfg, before, after, [trip] + trips)
  {
    assert trip in [trip] + trips;
    if trip.id == before.id {
      assert trip in [trip];
    }
    if forall t <- [trip] + trips :: t.id != before.id {
      assert forall t <- trips :: t in [trip] + trips;
    }
  }

  lemma RowsCompose(cfg: Config, nodes: seq<Node>, mid: seq<Node>, last: seq<Node>, trip: Trip, trips: seq<Trip>)
    requires UniqueIds(mid) && trip.reply.Reply?
    requires RowsFare(cfg, nodes, mid, [trip]) && RowsFare(cfg, mid, last, trips)
    requires TripsAreOpenAndDistinct(mid, trips)
    ensures RowsFare(cfg, nodes, last, [trip] + trips)
  {
    forall i | 0 <= i < |nodes|
      ensures Fares(cfg, nodes[i], last[i], [trip] + trips)
    {
      assert Fares(cfg, nodes[i], mid[i], [trip]) && Fares(cfg, mid[i], last[i], trips);
      if trip.id == nodes[i].id {
        assert trip in [trip];
        ClosedRowStays(cfg, mid, last, trips, i);
      }
      FaresCompose(cfg, nodes[i], mid[i], last[i], trip, trips);
    }
  }

  lemma OpenRowWasOpen(cfg: Config, before: Node, after: Node, trip: Trip)
    requires Fares(cfg, before, after, [trip]) && trip.reply.Reply? && Open(after)
    ensures Open(before) && before.id == after.id != trip.id && TierOf(before) == TierOf(after)
  {
    assert trip in [trip];
  }

  lemma FindingsAreNotOpen(cfg: Config, appended: seq<Node>, trip: Trip, weather: nat -> Round, k: nat)
    requires appended == Findings(cfg, [trip], weather, k)
    ensures forall n <- appended :: !Open(n)
  {
    assert [trip][1..] == [];
  }

  lemma OpenRowsWereOpen(cfg: Config, nodes: seq<Node>, mid: seq<Node>, trip: Trip, t: Trip,
                         weather: nat -> Round, k: nat)
    requires RowsFare(cfg, nodes, mid, [trip]) && mid[|nodes|..] == Findings(cfg, [trip], weather, k)
    requires trip.reply.Reply? && TripIsOpen(mid, t)
    ensures TripIsOpen(nodes, t) && t.id != trip.id
  {
    FindingsAreNotOpen(cfg, mid[|nodes|..], trip, weather, k);
    forall i | |nodes| <= i < |mid| ensures !Open(mid[i]) { assert mid[i] == mid[|nodes|..][i - |nodes|]; }
    var j :| 0 <= j < |mid| && mid[j].id == t.id && Open(mid[j]) && TierOf(mid[j]) == t.tier;
    OpenRowWasOpen(cfg, nodes[j], mid[j], trip);
  }

  lemma TripsCompose(cfg: Config, nodes: seq<Node>, mid: seq<Node>, trip: Trip, trips: seq<Trip>,
                     weather: nat -> Round, k: nat)
    requires UniqueIds(mid) && trip.reply.Reply?
    requires RowsFare(cfg, nodes, mid, [trip]) && mid[|nodes|..] == Findings(cfg, [trip], weather, k)
    requires TripIsOpen(nodes, trip) && TripsAreOpenAndDistinct(mid, trips)
    ensures TripsAreOpenAndDistinct(nodes, [trip] + trips)
  {
    forall t | t in trips
      ensures TripIsOpen(nodes, t) && t.id != trip.id
    {
      OpenRowsWereOpen(cfg, nodes, mid, trip, t, weather, k);
    }
  }

  lemma FindingsStay(cfg: Config, nodes: seq<Node>, mid: seq<Node>, last: seq<Node>, trip: Trip, trips: seq<Trip>,
                     weather: nat -> Round, k: nat)
    requires UniqueIds(mid) && |nodes| <= |mid|
    requires mid[|nodes|..] == Findings(cfg, [trip], weather, k)
    requires RowsFare(cfg, mid, last, trips) && TripsAreOpenAndDistinct(mid, trips)
    requires last[|mid|..] == Findings(cfg, trips, weather, k + 1)
    ensures last[|nodes|..] == Findings(cfg, [trip] + trips, weather, k)
  {
    assert ([trip] + trips)[1..] == trips;
    assert [trip][1..] == [];
    forall i | |nodes| <= i < |mid|
      ensures last[i] == mid[i]
    {
      assert mid[i] == mid[|nodes|..][i - |nodes|];
      ClosedRowStays(cfg, mid, last, trips, i);
    }
    assert last[|nodes|..] == mid[|nodes|..] + last[|mid|..];
  }

  lemma {:induction false} RunIsLawful(w: World, cfg: Config, weather: nat -> Round, k: nat)
    requires UniqueIds(w.nodes) && FreshFindings(w.nodes, weather, k)
    ensures Lawful(cfg, weather, k, w.nodes, Run(w, cfg, weather, k))
    decreases cfg.maxRounds - k
  {
    var (first, on) := RoundOf(w, cfg, weather, k);
    RoundIsLawful(w, cfg, weather, k);
    if !on {
    } else {
      RoundNodes(w, cfg, weather, k);
      RoundKeepsIds(w, cfg, weather, k);
      RunIsLawful(first.world, cfg, weather, k + 1);
      var rest := Run(first.world, cfg, weather, k + 1);
      var trip := first.trips[0];
      assert first.trips == [trip];
      RowsCompose(cfg, w.nodes, first.world.nodes, rest.world.nodes, trip, rest.trips);
      TripsCompose(cfg, w.nodes, first.world.nodes, trip, rest.trips, weather, k);
      FindingsStay(cfg, w.nodes, first.world.nodes, rest.world.nodes, trip, rest.trips, weather, k);
    }
  }

  // ---------------------------------------------------------------------------
  // Termination and accounting
  // ---------------------------------------------------------------------------

  ghost function CountVerdict(cfg: Config, trips: seq<Trip>, status: Status): nat {
    if trips == [] then 0
    else (if Verdict(cfg, trips[0].reply) == status then 1 else 0) + CountVerdict(cfg, trips[1..], status)
  }

  ghost function OpenIds(nodes: seq<Node>): set<string> {
    set n <- nodes | Open(n) :: n.id
  }

  lemma {:induction false} DistinctTripsFit(trips: seq<Trip>, ids: set<string>)
    requires forall t <- trips :: t.id in ids
    requires forall i, j | 0 <= i < j < |trips| :: trips[i].id != trips[j].id
    ensures |trips| <= |ids|
  {
    if trips == [] {
    } else {
      DistinctTripsFit(trips[1..], ids - {trips[0].id});
    }
  }

  ghost predicate Accounted(cfg: Config, weather: nat -> Round, k: nat, o: Outcome) {
    && o.closed == CountVerdict(cfg, o.trips, Done)
    && o.blocked == CountVerdict(cfg, o.trips, Blocked)
    && o.rounds == o.closed + o.blocked
    && |o.trips| == o.rounds + (if o.aborted then 1 else 0)
    && (forall j | 0 <= j < |o.trips| ::
          && o.trips[j].reply == weather(k + j).reply
          && (o.trips[j].reply.Throws? <==> o.aborted && j == |o.trips| - 1))
    && k + |o.trips| <= if k <= cfg.maxRounds then cfg.maxRounds else k
  }

  /** A round either only keeps house, or is one cycle below the ceiling on the rows after that. */
  lemma RoundShape(w: World, cfg: Config, weather: nat -> Round, k: nat)
    ensures var (o, on) := RoundOf(w, cfg, weather, k);
            if o.trips == [] then
              && !on && !o.aborted && o.closed == 0 && o.blocked == 0 && o.rounds == 0
              && o.world.spent == w.spent && o.world.ledger == w.ledger
            else
              var kept := Housekeep(w, weather(k).sweepTime);
              var (next, result) := Cycle(kept, cfg, AgentId(cfg, k), weather(k), true);
              && k < cfg.maxRounds && !Exceeded(cfg.ceiling, w.spent)
              && kept.spent == w.spent && kept.ledger == w.ledger && o.world == next
              && (result.DoneTask? || result.BlockedTask? || result.Aborted?)
              && o.trips == [Trip(result.id, result.tier, weather(k).reply)]
              && (on <==> !result.Aborted?) && (o.aborted <==> result.Aborted?)
              && o.closed == (if result.DoneTask? then 1 else 0)
              && o.blocked == (if result.BlockedTask? then 1 else 0)
              && o.rounds == o.closed + o.blocked
  {
    var kept := Housekeep(w, weather(k).sweepTime);
    if k < cfg.maxRounds && !Exceeded(cfg.ceiling, w.spent)
       && FindNextTask(kept.nodes, kept.edges, weather(k).gateTime).Some? {
      LateBreakIsNeverTaken(kept, cfg, AgentId(cfg, k), weather(k));
    }
  }

  /** The result of a cycle follows the reply. */
  lemma ResultIsVerdict(w: World, cfg: Config, agentId: string, round: Round)
    ensures var result := Cycle(w, cfg, agentId, round, true).1;
            && (result.DoneTask? ==> Accepted(cfg, round.reply))
            && (result.BlockedTask? ==> Rejected(cfg, round.reply))
            && (result.Aborted? ==> round.reply.Throws?)
  {
  }

  lemma OneTripCount(cfg: Config, trips: seq<Trip>)
    requires |trips| <= 1
    ensures forall status :: CountVerdict(cfg, trips, status)
                             == if trips != [] && Verdict(cfg, trips[0].reply) == status then 1 else 0
  {
    assert trips != [] ==> trips[1..] == [];
  }

  lemma RoundAccounts(w: World, cfg: Config, weather: nat -> Round, k: nat)
    ensures var (o, on) := RoundOf(w, cfg, weather, k);
            Accounted(cfg, weather, k, o) && (on ==> |o.trips| == 1 && !o.aborted)
  {
    RoundShape(w, cfg, weather, k);
    ResultIsVerdict(Housekeep(w, weather(k).sweepTime), cfg, AgentId(cfg, k), weather(k));
    OneTripCount(cfg, RoundOf(w, cfg, weather, k).0.trips);
  }

  lemma AccountsCompose(cfg: Config, weather: nat -> Round, k: nat, first: Outcome, rest: Outcome)
    requires Accounted(cfg, weather, k, first) && |first.trips| == 1 && !first.aborted
    requires Accounted(cfg, weather, k + 1, rest) && k < cfg.maxRounds
    ensures Accounted(cfg, weather, k, After(first, rest))
  {
    var trips := first.trips + rest.trips;
    assert trips[1..] == rest.trips;
    assert first.trips[1..] == [];
    forall j | 0 <= j < |trips|
      ensures trips[j].reply == weather(k + j).reply
      ensures trips[j].reply.Throws? <==> rest.aborted && j == |trips| - 1
    {
      if j > 0 { assert trips[j] == rest.trips[j - 1]; }
    }
  }

  /**
   The report adds up: every counted round closed or blocked one task, the reply of trip `j` is
   the one of round `k + j`, and the run aborts exactly when its last trip hit a throwing call.
   */
  lemma {:induction false} RunAccounts(w: World, cfg: Config, weather: nat -> Round, k: nat)
    ensures Accounted(cfg, weather, k, Run(w, cfg, weather, k))
    decreases cfg.maxRounds - k
  {
    var (first, on) := RoundOf(w, cfg, weather, k);
    RoundAccounts(w, cfg, weather, k);
    if !on {
    } else {
      RunAccounts(first.world, cfg, weather, k + 1);
      AccountsCompose(cfg, weather, k, first, Run(first.world, cfg, weather, k + 1));
    }
  }

  /** No run executes more cycles than the cap allows or than there are open tasks at its start. */
  lemma RoundsAreBounded(w: World, cfg: Config, weather: nat -> Round)
    requires UniqueIds(w.nodes) && FreshFindings(w.nodes, weather, 0)
    ensures var o := Run(w, cfg, weather, 0);
            && |o.trips| <= |OpenIds(w.nodes)|
            && (0 <= cfg.maxRounds ==> |o.trips| <= cfg.maxRounds)
            && (cfg.maxRounds < 0 ==> o.trips == [])
  {
    var o := Run(w, cfg, weather, 0);
    RunIsLawful(w, cfg, weather, 0);
    RunAccounts(w, cfg, weather, 0);
    forall t | t in o.trips
      ensures t.id in OpenIds(w.nodes)
    {
      var i :| 0 <= i < |w.nodes| && w.nodes[i].id == t.id && Open(w.nodes[i]);
      assert w.nodes[i] in w.nodes;
    }
    DistinctTripsFit(o.trips, OpenIds(w.nodes));
  }

  // ---------------------------------------------------------------------------
  // Honesty
  // ---------------------------------------------------------------------------

  lemma RowIsEarned(cfg: Config, before: Node, after: Node, trips: seq<Trip>)
    requires Fares(cfg, before, after, trips) && forall t <- trips | t.id == before.id :: Open(before)
    ensures after.status == Done <==>
            before.status == Done || exists t <- trips :: t.id == before.id && Accepted(cfg, t.reply)
    ensures after.status == Blocked <==>
            before.status == Blocked || exists t <- trips :: t.id == before.id && Rejected(cfg, t.reply)
  {
  }

  lemma TripsTakeOpen(nodes: seq<Node>, trips: seq<Trip>, i: nat)
    requires UniqueIds(nodes) && TripsAreOpenAndDistinct(nodes, trips) && i < |nodes|
    ensures forall t <- trips | t.id == nodes[i].id :: Open(nodes[i])
  {
    forall t | t in trips && t.id == nodes[i].id
      ensures Open(nodes[i])
    {
      assert TripIsOpen(nodes, t);
    }
  }

  /** A row ends done, or blocked, only if it started so or its own reply was accepted, or rejected. */
  lemma StatusIsEarned(w: World, cfg: Config, weather: nat -> Round, i: nat)
    requires UniqueIds(w.nodes) && FreshFindings(w.nodes, weather, 0) && i < |w.nodes|
    ensures var o := Run(w, cfg, weather, 0);
            && |o.world.nodes| >= |w.nodes|
            && (o.world.nodes[i].status == Done <==>
                  w.nodes[i].status == Done || exists t <- o.trips :: t.id == w.nodes[i].id && Accepted(cfg, t.reply))
            && (o.world.nodes[i].status == Blocked <==>
                  || w.nodes[i].status == Blocked
                  || exists t <- o.trips :: t.id == w.nodes[i].id && Rejected(cfg, t.reply))
  {
    var o := Run(w, cfg, weather, 0);
    RunIsLawful(w, cfg, weather, 0);
    TripsTakeOpen(w.nodes, o.trips, i);
    RowIsEarned(cfg, w.nodes[i], o.world.nodes[i], o.trips);
  }

  predicate IsFindingFor(n: Node, task: string) {
    n.kind == Risk && n.parentId == Some(task)
  }

  ghost function FindingTest(task: string): Node -> bool {
    n => IsFindingFor(n, task)
  }

  lemma {:induction false} FindingsPerTask(cfg: Config, trips: seq<Trip>, weather: nat -> Round, k: nat, task: string)
    requires forall i, j | 0 <= i < j < |trips| :: trips[i].id != trips[j].id
    ensures |Select(Findings(cfg, trips, weather, k), FindingTest(task))|
         == if exists t <- trips :: t.id == task && Rejected(cfg, t.reply) then 1 else 0
  {
    if trips == [] {
    } else {
      var head := if Rejected(cfg, trips[0].reply) then [Finding(weather(k), trips[0].id)] else [];
      FindingsPerTask(cfg, trips[1..], weather, k + 1, task);
      SelectConcat(head, Findings(cfg, trips[1..], weather, k + 1), FindingTest(task));
      assert trips == [trips[0]] + trips[1..];
    }
  }

  /** A run adds nothing but findings: exactly one for a rejected task, none for any other. */
  lemma OneFindingPerRejection(w: World, cfg: Config, weather: nat -> Round, task: string)
    requires UniqueIds(w.nodes) && FreshFindings(w.nodes, weather, 0)
    ensures var o := Run(w, cfg, weather, 0);
            && |o.world.nodes| >= |w.nodes|
            && |Select(o.world.nodes[|w.nodes|..], FindingTest(task))|
               == if exists t <- o.trips :: t.id == task && Rejected(cfg, t.reply) then 1 else 0
  {
    RunIsLawful(w, cfg, weather, 0);
    FindingsPerTask(cfg, Run(w, cfg, weather, 0).trips, weather, 0, task);
  }

  // ---------------------------------------------------------------------------
  // Spend and attribution
  // ---------------------------------------------------------------------------

  ghost function TripTokens(trips: seq<Trip>): nat {
    if trips == [] then 0 else Tokens(trips[0].reply) + TripTokens(trips[1..])
  }

  /** What one cycle books: tokens and ledger row for a settled task, nothing otherwise. */
  lemma CycleBooks(w: World, cfg: Config, agentId: string, round: Round)
    ensures var (next, result) := Cycle(w, cfg, agentId, round, true);
            && (result.DoneTask? || result.BlockedTask? ==>
                  && round.reply.Reply? && !Exceeded(cfg.ceiling, w.spent)
                  && next.spent == w.spent + Tokens(round.reply)
                  && next.ledger == Recorded(w.ledger, result.id, agentId, result.tier, round.reply))
            && (!result.DoneTask? && !result.BlockedTask? ==> next.spent == w.spent && next.ledger == w.ledger)
            && (result.Aborted? ==> round.reply.Throws? && !Exceeded(cfg.ceiling, w.spent) && result.id in next.locks)
  {
  }

  /** A round moves the meter by its own reply, and starts only below the ceiling. */
  lemma RoundSpends(w: World, cfg: Config, weather: nat -> Round, k: nat)
    ensures var (o, on) := RoundOf(w, cfg, weather, k);
            && |o.trips| <= 1 && (on ==> |o.trips| == 1)
            && o.world.spent == w.spent + TripTokens(o.trips)
            && (o.trips != [] ==> !Exceeded(cfg.ceiling, w.spent))
  {
    var o := RoundOf(w, cfg, weather, k).0;
    RoundShape(w, cfg, weather, k);
    CycleBooks(Housekeep(w, weather(k).sweepTime), cfg, AgentId(cfg, k), weather(k));
    assert o.trips != [] ==> o.trips[1..] == [];
  }

  ghost predicate Spends(ceiling: Option<int>, spent: int, o: Outcome) {
    && o.world.spent == spent + TripTokens(o.trips)
    && (o.trips != [] && ceiling.Some? ==>
          o.world.spent < ceiling.value + Tokens(o.trips[|o.trips| - 1].reply))
  }

  lemma SpendsCompose(ceiling: Option<int>, spent: int, first: Outcome, rest: Outcome)
    requires Spends(ceiling, spent, first) && |first.trips| == 1 && Spends(ceiling, first.world.spent, rest)
    ensures Spends(ceiling, spent, After(first, rest))
  {
    var trips := first.trips + rest.trips;
    assert trips[1..] == rest.trips && trips[0] == first.trips[0];
    assert first.trips[1..] == [];
    assert TripTokens(first.trips) == Tokens(first.trips[0].reply);
    assert TripTokens(trips) == Tokens(first.trips[0].reply) + TripTokens(rest.trips);
    if rest.trips != [] {
      assert trips[|trips| - 1] == rest.trips[|rest.trips| - 1];
    } else {
      assert trips == first.trips;
    }
  }

  lemma RoundIsCapped(ceiling: Option<int>, spent: int, o: Outcome)
    requires |o.trips| <= 1 && o.world.spent == spent + TripTokens(o.trips)
    requires o.trips != [] ==> !Exceeded(ceiling, spent)
    ensures Spends(ceiling, spent, o)
  {
    assert o.trips != [] ==> o.trips[1..] == [];
  }

  lemma {:induction false} RunSpends(w: World, cfg: Config, weather: nat -> Round, k: nat)
    ensures Spends(cfg.ceiling, w.spent, Run(w, cfg, weather, k))
    decreases cfg.maxRounds - k
  {
    var (first, on) := RoundOf(w, cfg, weather, k);
    RoundSpends(w, cfg, weather, k);
    RoundIsCapped(cfg.ceiling, w.spent, first);
    if !on {
    } else {
      RunSpends(first.world, cfg, weather, k + 1);
      SpendsCompose(cfg.ceiling, w.spent, first, Run(first.world, cfg, weather, k + 1));
    }
  }

  /**
   Spend is the sum over the replies, each with its input and output tokens or nothing if they come out
   negative, and passes the ceiling by less than the last reply.
   */
  lemma SpendIsCapped(w: World, cfg: Config, weather: nat -> Round, k: nat)
    ensures var o := Run(w, cfg, weather, k);
            && o.world.spent == w.spent + TripTokens(o.trips)
            && (o.trips != [] && cfg.ceiling.Some? ==>
                  o.world.spent < cfg.ceiling.value + Tokens(o.trips[|o.trips| - 1].reply))
            && forall t <- o.trips ::
                 Tokens(t.reply) == match t.reply
                                    case Throws => 0
                                    case Reply(_, i, j, _, _) => if i + j < 0 then 0 else i + j
  {
    RunSpends(w, cfg, weather, k);
  }

  ghost function RowsFor(cfg: Config, trips: seq<Trip>, k: nat): seq<LedgerRow> {
    if trips == [] then []
    else Recorded([], trips[0].id, AgentId(cfg, k), trips[0].tier, trips[0].reply) + RowsFor(cfg, trips[1..], k + 1)
  }

  lemma {:induction false} CostOfConcat(a: seq<LedgerRow>, b: seq<LedgerRow>, task: string)
    ensures CostOf(a + b, task) == AddCost(CostOf(a, task), CostOf(b, task))
  {
    if b == [] {
      assert a + b == a;
    } else {
      assert (a + b)[..|a + b| - 1] == a + b[..|b| - 1];
      CostOfConcat(a, b[..|b| - 1], task);
    }
  }

  lemma RoundBooks(w: World, cfg: Config, weather: nat -> Round, k: nat)
    ensures var (o, on) := RoundOf(w, cfg, weather, k);
            (on ==> |o.trips| == 1) && o.world.ledger == w.ledger + RowsFor(cfg, o.trips, k)
  {
    RoundShape(w, cfg, weather, k);
    CycleBooks(Housekeep(w, weather(k).sweepTime), cfg, AgentId(cfg, k), weather(k));
    var o := RoundOf(w, cfg, weather, k).0;
    if o.trips != [] {
      assert o.trips[1..] == [];
      var t := o.trips[0];
      assert RowsFor(cfg, o.trips, k) == Recorded([], t.id, AgentId(cfg, k), t.tier, t.reply);
    }
  }

  lemma RowsForConcat(cfg: Config, first: seq<Trip>, rest: seq<Trip>, k: nat)
    requires |first| == 1
    ensures RowsFor(cfg, first + rest, k) == RowsFor(cfg, first, k) + RowsFor(cfg, rest, k + 1)
  {
    assert (first + rest)[1..] == rest;
    assert first[1..] == [];
  }

  lemma BooksCompose(cfg: Config, ledger: seq<LedgerRow>, first: Outcome, rest: Outcome, k: nat)
    requires |first.trips| == 1
    requires first.world.ledger == ledger + RowsFor(cfg, first.trips, k)
    requires rest.world.ledger == first.world.ledger + RowsFor(cfg, rest.trips, k + 1)
    ensures After(first, rest).world.ledger == ledger + RowsFor(cfg, After(first, rest).trips, k)
  {
    RowsForConcat(cfg, first.trips, rest.trips, k);
  }

  lemma {:induction false} RunBooks(w: World, cfg: Config, weather: nat -> Round, k: nat)
    ensures Run(w, cfg, weather, k).world.ledger == w.ledger + RowsFor(cfg, Run(w, cfg, weather, k).trips, k)
    decreases cfg.maxRounds - k
  {
    var (first, on) := RoundOf(w, cfg, weather, k);
    RoundBooks(w, cfg, weather, k);
    if !on {
    } else {
      RunBooks(first.world, cfg, weather, k + 1);
      BooksCompose(cfg, w.ledger, first, Run(first.world, cfg, weather, k + 1), k);
    }
  }

  /** What the recorded reply of this task adds to its cost. */
  ghost function BookedFor(trips: seq<Trip>, task: string): TaskCost {
    if trips == [] then TaskCost(0, 0.0)
    else if trips[0].id == task then
      var reply := trips[0].reply;
      if reply.Reply? && reply.recorded then TaskCost(reply.inputTokens + reply.outputTokens, reply.costUsd)
      else TaskCost(0, 0.0)
    else BookedFor(trips[1..], task)
  }

  lemma {:induction false} RowsForTask(cfg: Config, trips: seq<Trip>, k: nat, task: string)
    requires forall i, j | 0 <= i < j < |trips| :: trips[i].id != trips[j].id
    ensures CostOf(RowsFor(cfg, trips, k), task) == BookedFor(trips, task)
    ensures (forall t <- trips :: t.id != task) ==> CostOf(RowsFor(cfg, trips, k), task) == TaskCost(0, 0.0)
  {
    if trips == [] {
    } else {
      assert trips == [trips[0]] + trips[1..];
      RowsForTask(cfg, trips[1..], k + 1, task);
      var row := Recorded([], trips[0].id, AgentId(cfg, k), trips[0].tier, trips[0].reply);
      CostOfConcat(row, RowsFor(cfg, trips[1..], k + 1), task);
      assert row != [] ==> row[..|row| - 1] == [];
    }
  }

  /** The run charges a task exactly its own reply, tokens and price, on top of what it was charged before. */
  lemma CostIsAttributed(w: World, cfg: Config, weather: nat -> Round, task: string)
    requires UniqueIds(w.nodes) && FreshFindings(w.nodes, weather, 0)
    ensures var o := Run(w, cfg, weather, 0);
            CostOf(o.world.ledger, task) == AddCost(CostOf(w.ledger, task), BookedFor(o.trips, task))
  {
    var o := Run(w, cfg, weather, 0);
    RunIsLawful(w, cfg, weather, 0);
    RunBooks(w, cfg, weather, 0);
    RowsForTask(cfg, o.trips, 0, task);
    CostOfConcat(w.ledger, RowsFor(cfg, o.trips, 0), task);
  }

  /** The tier of any row: bugs are cheap, epics frontier, and the rest goes by priority and criteria. */
  lemma TierByColumns(n: Node)
    ensures n.kind == Bug ==> TierOf(n) == Cheap
    ensures n.kind == Epic ==> TierOf(n) == Frontier
    ensures n.kind != Bug && n.kind != Epic ==>
              var p, c := n.details.priority, n.details.criteria;
              && (TierOf(n) == Frontier <==> p <= 1 || (p <= 3 && c >= 4))
              && (TierOf(n) == Build <==> (2 <= p <= 3 && c < 4) || (p == 4 && c >= 4))
              && (TierOf(n) == Cheap <==> p >= 5 || (p == 4 && c < 4))
  {
  }

  ghost predicate NoCheaper(a: Tier, b: Tier) {
    a == Frontier || b == Cheap || (a == Build && b == Build)
  }

  /** A more urgent priority or more criteria never move a row to a cheaper tier. */
  lemma TierIsMonotone(n: Node, priority: int, criteria: nat)
    requires priority <= n.details.priority && criteria >= n.details.criteria
    ensures NoCheaper(TierOf(n.(details := n.details.(priority := priority, criteria := criteria))), TierOf(n))
  {
    TierByColumns(n);
    TierByColumns(n.(details := n.details.(priority := priority, criteria := criteria)));
  }

  lemma TripAsksTier(nodes: seq<Node>, t: Trip, i: nat)
    requires UniqueIds(nodes) && i < |nodes| && t.id == nodes[i].id && TripIsOpen(nodes, t)
    ensures t.tier == TierOf(nodes[i]) && Open(nodes[i])
  {
    var j :| 0 <= j < |nodes| && nodes[j].id == t.id && Open(nodes[j]) && TierOf(nodes[j]) == t.tier;
    assert i == j;
  }

  /**
   Every call of a run goes where its task's columns at the start send it: to the frontier tier with
   priority 1, or with priority up to 3 and four criteria; to the cheap tier with priority 5, or 4 and
   fewer than four criteria; and to the build tier otherwise.
   */
  lemma CallsAreRouted(w: World, cfg: Config, weather: nat -> Round, i: nat)
    requires UniqueIds(w.nodes) && FreshFindings(w.nodes, weather, 0) && i < |w.nodes|
    ensures var p, c := w.nodes[i].details.priority, w.nodes[i].details.criteria;
            forall t <- Run(w, cfg, weather, 0).trips | t.id == w.nodes[i].id ::
              && (t.tier == Frontier <==> p <= 1 || (p <= 3 && c >= 4))
              && (t.tier == Build <==> (2 <= p <= 3 && c < 4) || (p == 4 && c >= 4))
              && (t.tier == Cheap <==> p >= 5 || (p == 4 && c < 4))
  {
    RunIsLawful(w, cfg, weather, 0);
    TierByColumns(w.nodes[i]);
    forall t | t in Run(w, cfg, weather, 0).trips && t.id == w.nodes[i].id
      ensures t.tier == TierOf(w.nodes[i]) && Open(w.nodes[i])
    {
      TripAsksTier(w.nodes, t, i);
    }
  }

  // ---------------------------------------------------------------------------
  // Orphans, leases, and the drained queue
  // ---------------------------------------------------------------------------

  /** Housekeeping leaves a row in progress exactly when a live lease stands under its bare id. */
  lemma OnlyLeasedRowsStayInProgress(w: World, now: int, i: nat)
    requires i < |w.nodes|
    ensures |Housekeep(w, now).nodes| == |w.nodes|
    ensures Housekeep(w, now).nodes[i].status == InProgress <==>
              && w.nodes[i].status == InProgress
              && w.nodes[i].id in w.locks && w.locks[w.nodes[i].id].expiresAt >= now
    ensures w.nodes[i].status == InProgress && Housekeep(w, now).nodes[i].status != InProgress ==>
              Housekeep(w, now).nodes[i].status == Backlog
  {
    ReclaimAt(w.nodes, Sweep(w.locks, now));
  }

  lemma OnlyTaskIsPicked(n: Node, now: int)
    requires Eligible(n)
    ensures FindNextTask([n], [], now) == Some(Pick(n, false))
  {
    PickerContract([n], [], now);
    UnblockedMembers([n], []);
    assert n in Unblocked([n], []);
  }

  /**
   The other claim paths keep a task's lease under `task:<id>`. Such a lease does not protect the
   task from the colony: it goes back to the pool and is handed out again while the lease lives.
   */
  lemma PrefixedLeaseDoesNotProtect(now: int, later: int, details: Details)
    ensures var w := World([Node("n1", Task, InProgress, false, None, details)], [],
                           map["task:n1" := Lock("other", now + CLAIM_TTL_MS)], [], 0);
            var kept := Housekeep(w, now);
            && kept.locks == w.locks
            && kept.nodes[0].status == Backlog
            && FindNextTask(kept.nodes, kept.edges, later) == Some(Pick(kept.nodes[0], false))
  {
    var n := Node("n1", Task, InProgress, false, None, details);
    var w := World([n], [], map["task:n1" := Lock("other", now + CLAIM_TTL_MS)], [], 0);
    var kept := Housekeep(w, now);
    assert |"task:n1"| != |"n1"|;
    OnlyLeasedRowsStayInProgress(w, now, 0);
    ReclaimAt(w.nodes, Sweep(w.locks, now));
    assert kept.nodes == [n.(status := Backlog)];
    OnlyTaskIsPicked(kept.nodes[0], later);
  }

  lemma AbortedRoundIsLeased(w: World, cfg: Config, weather: nat -> Round, k: nat)
    ensures var (o, on) := RoundOf(w, cfg, weather, k);
            && (on ==> !o.aborted)
            && (o.aborted ==> |o.trips| == 1 && o.trips[0].id in o.world.locks)
  {
    CycleBooks(Housekeep(w, weather(k).sweepTime), cfg, AgentId(cfg, k), weather(k));
  }

  ghost predicate LastTripLeased(o: Outcome) {
    o.aborted ==> o.trips != [] && o.trips[|o.trips| - 1].id in o.world.locks
  }

  lemma LeaseSurvives(first: Outcome, rest: Outcome)
    requires LastTripLeased(rest)
    ensures LastTripLeased(After(first, rest))
  {
    if rest.aborted {
      assert (first.trips + rest.trips)[|first.trips + rest.trips| - 1] == rest.trips[|rest.trips| - 1];
    }
  }

  lemma {:induction false} AbortedTaskIsLeased(w: World, cfg: Config, weather: nat -> Round, k: nat)
    ensures LastTripLeased(Run(w, cfg, weather, k))
    decreases cfg.maxRounds - k
  {
    var (first, on) := RoundOf(w, cfg, weather, k);
    AbortedRoundIsLeased(w, cfg, weather, k);
    if !on {
    } else {
      AbortedTaskIsLeased(first.world, cfg, weather, k + 1);
      LeaseSurvives(first, Run(first.world, cfg, weather, k + 1));
    }
  }

  lemma SweptTaskIsEligible(w: World, i: nat, later: int)
    requires i < |w.nodes| && Open(w.nodes[i]) && w.nodes[i].status == InProgress
    requires w.nodes[i].id in w.locks && w.locks[w.nodes[i].id].expiresAt < later
    ensures i < |Housekeep(w, later).nodes| && Eligible(Housekeep(w, later).nodes[i])
  {
    ReclaimAt(w.nodes, Sweep(w.locks, later));
  }

  lemma ThrownRowOf(cfg: Config, nodes: seq<Node>, o: Outcome) returns (i: nat)
    requires RowsFare(cfg, nodes, o.world.nodes, o.trips) && TripsAreOpenAndDistinct(nodes, o.trips)
    requires o.trips != [] && o.trips[|o.trips| - 1].reply.Throws? && o.trips[|o.trips| - 1].id in o.world.locks
    ensures i < |nodes| <= |o.world.nodes|
    ensures var row := o.world.nodes[i];
            Open(row) && row.status == InProgress && row.id in o.world.locks
  {
    var t := o.trips[|o.trips| - 1];
    assert t in o.trips;
    i :| 0 <= i < |nodes| && nodes[i].id == t.id && Open(nodes[i]);
    assert Fares(cfg, nodes[i], o.world.nodes[i], o.trips);
  }

  lemma ThrownRow(w: World, cfg: Config, weather: nat -> Round) returns (i: nat)
    requires UniqueIds(w.nodes) && FreshFindings(w.nodes, weather, 0)
    requires Run(w, cfg, weather, 0).aborted
    ensures i < |w.nodes| <= |Run(w, cfg, weather, 0).world.nodes|
    ensures var world := Run(w, cfg, weather, 0).world;
            Open(world.nodes[i]) && world.nodes[i].status == InProgress && world.nodes[i].id in world.locks
  {
    var o := Run(w, cfg, weather, 0);
    RunIsLawful(w, cfg, weather, 0);
    RunAccounts(w, cfg, weather, 0);
    AbortedTaskIsLeased(w, cfg, weather, 0);
    i := ThrownRowOf(cfg, w.nodes, o);
  }

  /**
   The task whose model call threw, row `i`, stays in progress under a lease, and is eligible again
   at the first housekeeping after the lease has run out.
   */
  lemma ThrownTaskReturnsToPool(w: World, cfg: Config, weather: nat -> Round) returns (i: nat)
    requires UniqueIds(w.nodes) && FreshFindings(w.nodes, weather, 0)
    requires Run(w, cfg, weather, 0).aborted
    ensures i < |w.nodes| <= |Run(w, cfg, weather, 0).world.nodes|
    ensures var world := Run(w, cfg, weather, 0).world;
            var id := world.nodes[i].id;
            && world.nodes[i].status == InProgress && id in world.locks
            && forall later | world.locks[id].expiresAt < later ::
                 i < |Housekeep(world, later).nodes| && Eligible(Housekeep(world, later).nodes[i])
  {
    i := ThrownRow(w, cfg, weather);
    var world := Run(w, cfg, weather, 0).world;
    forall later | world.locks[world.nodes[i].id].expiresAt < later
      ensures i < |Housekeep(world, later).nodes| && Eligible(Housekeep(world, later).nodes[i])
    {
      SweptTaskIsEligible(world, i, later);
    }
  }

  lemma {:induction false} RunDrains(w: World, cfg: Config, weather: nat -> Round, k: nat)
    ensures var o := Run(w, cfg, weather, k);
            !o.aborted && k + |o.trips| < cfg.maxRounds && !Exceeded(cfg.ceiling, o.world.spent) ==>
              forall n <- o.world.nodes :: !Eligible(n)
    decreases cfg.maxRounds - k
  {
    var (first, on) := RoundOf(w, cfg, weather, k);
    RoundNodes(w, cfg, weather, k);
    if on {
      RunDrains(first.world, cfg, weather, k + 1);
    } else if k < cfg.maxRounds && !Exceeded(cfg.ceiling, w.spent) {
      var kept := Housekeep(w, weather(k).sweepTime);
      PickerContract(kept.nodes, kept.edges, weather(k).gateTime);
      if FindNextTask(kept.nodes, kept.edges, weather(k).gateTime).Some? {
        LateBreakIsNeverTaken(kept, cfg, AgentId(cfg, k), weather(k));
      }
    }
  }

  /**
   A run that stops below its round cap and its token ceiling has worked off the queue: every task
   that was eligible at the start, dependencies notwithstanding, ends done or blocked.
   */
  lemma QueueIsWorkedOff(w: World, cfg: Config, weather: nat -> Round, i: nat)
    requires UniqueIds(w.nodes) && FreshFindings(w.nodes, weather, 0)
    requires i < |w.nodes| && Eligible(w.nodes[i])
    requires var o := Run(w, cfg, weather, 0);
             !o.aborted && o.rounds < cfg.maxRounds && !Exceeded(cfg.ceiling, o.world.spent)
    ensures var o := Run(w, cfg, weather, 0);
            |o.world.nodes| >= |w.nodes| && o.world.nodes[i].status in {Done, Blocked}
  {
    var o := Run(w, cfg, weather, 0);
    RunIsLawful(w, cfg, weather, 0);
    RunAccounts(w, cfg, weather, 0);
    RunDrains(w, cfg, weather, 0);
    assert Fares(cfg, w.nodes[i], o.world.nodes[i], o.trips);
    assert o.world.nodes[i] in o.world.nodes;
  }

  // ---------------------------------------------------------------------------
  // Agents and leases
  // ---------------------------------------------------------------------------

  /** Rounds share an agent name exactly when they are a whole turn of the ants apart. */
  lemma AntsTakeTurns(cfg: Config, j: nat, k: nat)
    ensures var ants := if cfg.ants > 1 then cfg.ants else 1;
            AgentId(cfg, j) == AgentId(cfg, k) <==> j % ants == k % ants
  {
    var ants := if cfg.ants > 1 then cfg.ants else 1;
    var x, y := Decimal(j % ants + 1), Decimal(k % ants + 1);
    if AgentId(cfg, j) == AgentId(cfg, k) {
      assert x == AgentId(cfg, j)[|cfg.prefix| + 1..];
      assert y == AgentId(cfg, k)[|cfg.prefix| + 1..];
      DecimalIsInjective(j % ants + 1, k % ants + 1);
    }
  }

  /**
   The answer of the claim is ignored. Below the ceiling the cycle works on the picked task in any
   case, and holds its lease, for five minutes, exactly when no other agent had a live one under the
   same key. Other live leases stay, and expired ones go.
   */
  lemma CycleOwnsLeaseIffFree(w: World, cfg: Config, agentId: string, round: Round)
    requires !Exceeded(cfg.ceiling, w.spent) && FindNextTask(w.nodes, w.edges, round.pickTime).Some?
    ensures var (next, result) := Cycle(w, cfg, agentId, round, true);
            var id := FindNextTask(w.nodes, w.edges, round.pickTime).value.node.id;
            var held := id in w.locks && w.locks[id].expiresAt >= round.claimTime && w.locks[id].agentId != agentId;
            && (result.DoneTask? || result.BlockedTask? || result.Aborted?) && result.id == id
            && id in next.locks && (next.locks[id].agentId == agentId <==> !held)
            && next.locks[id] == (if held then w.locks[id] else Lock(agentId, round.claimTime + 300_000))
            && forall r | r != id ::
                 && (r in next.locks <==> r in w.locks && w.locks[r].expiresAt >= round.claimTime)
                 && (r in next.locks ==> next.locks[r] == w.locks[r])
  {
    var id := FindNextTask(w.nodes, w.edges, round.pickTime).value.node.id;
    assert Cycle(w, cfg, agentId, round, true).0.locks == TryClaim(w.locks, round.claimTime, id, agentId);
  }

  /** Two rows, the one waiting for the other, which is blocked: the picker hands out the waiting one. */
  lemma WaitingTaskIsPicked(a: Node, b: Node, now: int)
    requires a.id != b.id && Eligible(a) && b.status == Blocked
    ensures FindNextTask([a, b], [Edge(a.id, b.id, DependsOn)], now) == Some(Pick(a, true))
  {
    var nodes, edges := [a, b], [Edge(a.id, b.id, DependsOn)];
    PickerContract(nodes, edges, now);
    UnblockedMembers(nodes, edges);
    assert a in nodes && edges[0] in edges;
    assert forall n | n in Unblocked(nodes, edges) :: n == a && IsDone(nodes, b.id);
  }

  /** A task is executed and closed while its dependency stands open, when every eligible task waits for one. */
  lemma BlockedTaskIsExecuted(cfg: Config, agentId: string, round: Round, details: Details)
    requires !Exceeded(cfg.ceiling, 0) && Accepted(cfg, round.reply)
    ensures var a, b := Node("a", Task, Backlog, false, None, details), Node("b", Task, Blocked, false, None, details);
            var edges := [Edge("a", "b", DependsOn)];
            var (next, result) := Cycle(World([a, b], edges, map[], [], 0), cfg, agentId, round, true);
            && FindNextTask([a, b], edges, round.pickTime) == Some(Pick(a, true))
            && result == DoneTask("a", TierOf(a))
            && next.nodes == [a.(status := Done), b]
  {
    var a, b := Node("a", Task, Backlog, false, None, details), Node("b", Task, Blocked, false, None, details);
    var edges := [Edge("a", "b", DependsOn)];
    assert "a"[0] != "b"[0];
    WaitingTaskIsPicked(a, b, round.pickTime);
    StatusOverwritten([a, b], "a", InProgress, Done);
    SetStatusAt([a, b], "a", Done);
  }

  /** The pull is not atomic: a task that another agent has leased is executed and closed under that lease. */
  lemma LeasedTaskIsExecuted(cfg: Config, agentId: string, round: Round, details: Details)
    requires !Exceeded(cfg.ceiling, 0) && agentId != "other" && Accepted(cfg, round.reply)
    ensures var n := Node("n1", Task, Backlog, false, None, details);
            var lock := Lock("other", round.claimTime + 1);
            var (next, result) := Cycle(World([n], [], map["n1" := lock], [], 0), cfg, agentId, round, true);
            && result == DoneTask("n1", TierOf(n))
            && next.nodes == [n.(status := Done)]
            && next.locks == map["n1" := lock]
  {
    var n := Node("n1", Task, Backlog, false, None, details);
    var lock := Lock("other", round.claimTime + 1);
    OnlyTaskIsPicked(n, round.pickTime);
    assert Sweep(map["n1" := lock], round.claimTime) == map["n1" := lock];
    StatusOverwritten([n], "n1", InProgress, Done);
    SetStatusAt([n], "n1", Done);
    assert SetStatus([n], "n1", Done) == [n.(status := Done)];
  }
}
