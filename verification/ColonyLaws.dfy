/**
 What a whole colony run writes to ledger and graph, column by column
 (src/swarming/run.ts:113-131, src/swarming/ant-runner.ts:98-154).
 */
module ColonyLaws {
  import opened Prelude
  import opened ColonyGraph
  import opened Picker
  import opened Colony
  import opened ColonyTheorems

  /** The trips that pass a test, by their places in the run. */
  ghost predicate PlacesOf(trips: seq<Trip>, test: Trip -> bool, places: seq<nat>) {
    && (forall i, j | 0 <= i < j < |places| :: places[i] < places[j])
    && forall p: nat :: p in places <==> p < |trips| && test(trips[p])
  }

  ghost function Shifted(places: seq<nat>): seq<nat> {
    seq(|places|, i requires 0 <= i < |places| => places[i] + 1)
  }

  lemma ShiftedMembers(places: seq<nat>)
    ensures forall p: nat :: p in Shifted(places) <==> p > 0 && p - 1 in places
  {
    forall p: nat | p > 0 && p - 1 in places ensures p in Shifted(places) {
      var i :| 0 <= i < |places| && places[i] == p - 1;
      assert Shifted(places)[i] == p;
    }
  }

  lemma PlacesInFront(trips: seq<Trip>, test: Trip -> bool, rest: seq<nat>)
    requires trips != [] && PlacesOf(trips[1..], test, rest)
    ensures PlacesOf(trips, test, (if test(trips[0]) then [0] else []) + Shifted(rest))
  {
    ShiftedMembers(rest);
    forall p: nat ensures p in Shifted(rest) <==> 0 < p < |trips| && test(trips[p]) {
      assert 0 < p < |trips| ==> trips[1..][p - 1] == trips[p];
    }
  }

  /** What stands at place `i` fits trip `places[i]`, counted as a round from `k` on. */
  ghost predicate Fits<X(!new)>(trips: seq<Trip>, k: nat, places: seq<nat>, xs: seq<X>, fits: (Trip, nat, X) -> bool) {
    && |xs| == |places|
    && forall i | 0 <= i < |places| :: places[i] < |trips| && fits(trips[places[i]], k + places[i], xs[i])
  }

  lemma FitsShifted<X(!new)>(trips: seq<Trip>, k: nat, rest: seq<nat>, xs: seq<X>, fits: (Trip, nat, X) -> bool)
    requires trips != [] && Fits(trips[1..], k + 1, rest, xs, fits)
    ensures Fits(trips, k, Shifted(rest), xs, fits)
  {
    forall i | 0 <= i < |rest| ensures rest[i] + 1 < |trips| && fits(trips[rest[i] + 1], k + (rest[i] + 1), xs[i]) {
      assert trips[1..][rest[i]] == trips[rest[i] + 1];
    }
  }

  lemma FitsInFront<X(!new)>(trips: seq<Trip>, k: nat, places: seq<nat>, x: X, xs: seq<X>,
                             fits: (Trip, nat, X) -> bool)
    requires trips != [] && Fits(trips, k, places, xs, fits) && fits(trips[0], k, x)
    ensures Fits(trips, k, [0] + places, [x] + xs, fits)
  {
  }

  // ---------------------------------------------------------------------------
  // The ledger
  // ---------------------------------------------------------------------------

  ghost predicate IsRecorded(t: Trip) {
    match t.reply
    case Throws => false
    case Reply(_, _, _, _, recorded) => recorded
  }

  /** The agents take turns: one after the other from number one on, or a single one when none is asked for. */
  ghost function AgentOf(cfg: Config, k: nat): string {
    cfg.prefix + "-" + Decimal(1 + k % if cfg.ants < 1 then 1 else cfg.ants)
  }

  ghost predicate RowOf(cfg: Config, t: Trip, k: nat, row: LedgerRow) {
    && row.nodeId == t.id && row.agentId == AgentOf(cfg, k) && row.tier == t.tier && t.reply.Reply?
    && row.inputTokens == t.reply.inputTokens && row.outputTokens == t.reply.outputTokens
    && row.costUsd == t.reply.costUsd
  }

  lemma RecordedRow(cfg: Config, t: Trip, k: nat)
    ensures IsRecorded(t) ==>
              var reply := t.reply;
              var row := LedgerRow(t.id, AgentId(cfg, k), t.tier, reply.inputTokens, reply.outputTokens, reply.costUsd);
              Recorded([], t.id, AgentId(cfg, k), t.tier, t.reply) == [row] && RowOf(cfg, t, k, row)
    ensures !IsRecorded(t) ==> Recorded([], t.id, AgentId(cfg, k), t.tier, t.reply) == []
  {
  }

  ghost function FitsRow(cfg: Config): (Trip, nat, LedgerRow) -> bool {
    (t: Trip, k: nat, row: LedgerRow) => RowOf(cfg, t, k, row)
  }

  lemma {:induction false} RowsForPlaces(cfg: Config, trips: seq<Trip>, k: nat) returns (places: seq<nat>)
    ensures PlacesOf(trips, IsRecorded, places) && Fits(trips, k, places, RowsFor(cfg, trips, k), FitsRow(cfg))
  {
    if trips == [] {
      places := [];
    } else {
      var rest := RowsForPlaces(cfg, trips[1..], k + 1);
      var rows := RowsFor(cfg, trips[1..], k + 1);
      PlacesInFront(trips, IsRecorded, rest);
      FitsShifted(trips, k, rest, rows, FitsRow(cfg));
      RecordedRow(cfg, trips[0], k);
      if IsRecorded(trips[0]) {
        FitsInFront(trips, k, Shifted(rest), RowsFor(cfg, trips, k)[0], rows, FitsRow(cfg));
        places := [0] + Shifted(rest);
      } else {
        assert RowsFor(cfg, trips, k) == rows && [] + Shifted(rest) == Shifted(rest);
        places := Shifted(rest);
      }
    }
  }

  /**
   A run adds one ledger row for each trip whose reply was recorded, in the order of the trips: with
   the trip's task and tier, the agent whose turn it was, and the tokens and the price of the reply.
   */
  lemma LedgerIsExact(w: World, cfg: Config, weather: nat -> Round) returns (places: seq<nat>)
    ensures var o := Run(w, cfg, weather, 0);
            && PlacesOf(o.trips, IsRecorded, places)
            && |o.world.ledger| == |w.ledger| + |places| && o.world.ledger[..|w.ledger|] == w.ledger
            && forall i | 0 <= i < |places| ::
                 places[i] < |o.trips| && RowOf(cfg, o.trips[places[i]], places[i], o.world.ledger[|w.ledger| + i])
  {
    RunBooks(w, cfg, weather, 0);
    places := RowsForPlaces(cfg, Run(w, cfg, weather, 0).trips, 0);
  }

  // ---------------------------------------------------------------------------
  // Findings and spend
  // ---------------------------------------------------------------------------

  ghost function RejectedBy(cfg: Config): Trip -> bool {
    (t: Trip) => t.reply.Reply? && !cfg.accepts(t.reply.text)
  }

  /** A finding is a risk in the backlog, under the task, with priority 2, the round's id and the round's time. */
  ghost predicate FindingOf(t: Trip, round: Round, n: Node) {
    && n.id == round.findingId && n.kind == Risk && n.status == Backlog && !n.flagged && n.parentId == Some(t.id)
    && n.details.priority == 2 && n.details.criteria == 0 && n.details.createdAt == round.findingTime
  }

  ghost function FitsFinding(weather: nat -> Round): (Trip, nat, Node) -> bool {
    (t: Trip, k: nat, n: Node) => FindingOf(t, weather(k), n)
  }

  lemma {:induction false} FindingsHavePlaces(cfg: Config, trips: seq<Trip>, weather: nat -> Round, k: nat)
    returns (places: seq<nat>)
    ensures PlacesOf(trips, RejectedBy(cfg), places)
    ensures Fits(trips, k, places, Findings(cfg, trips, weather, k), FitsFinding(weather))
  {
    if trips == [] {
      places := [];
    } else {
      var rest := FindingsHavePlaces(cfg, trips[1..], weather, k + 1);
      var nodes := Findings(cfg, trips[1..], weather, k + 1);
      PlacesInFront(trips, RejectedBy(cfg), rest);
      FitsShifted(trips, k, rest, nodes, FitsFinding(weather));
      if RejectedBy(cfg)(trips[0]) {
        FitsInFront(trips, k, Shifted(rest), Finding(weather(k), trips[0].id), nodes, FitsFinding(weather));
        places := [0] + Shifted(rest);
      } else {
        assert Findings(cfg, trips, weather, k) == nodes && [] + Shifted(rest) == Shifted(rest);
        places := Shifted(rest);
      }
    }
  }

  /** A run adds one finding for each trip whose reply the parser turned down, in the order of the trips. */
  lemma FindingsAreExact(w: World, cfg: Config, weather: nat -> Round) returns (places: seq<nat>)
    requires UniqueIds(w.nodes) && FreshFindings(w.nodes, weather, 0)
    ensures var o := Run(w, cfg, weather, 0);
            && PlacesOf(o.trips, RejectedBy(cfg), places) && |o.world.nodes| == |w.nodes| + |places|
            && forall i | 0 <= i < |places| ::
                 && places[i] < |o.trips|
                 && FindingOf(o.trips[places[i]], weather(places[i]), o.world.nodes[|w.nodes| + i])
  {
    RunIsLawful(w, cfg, weather, 0);
    var o := Run(w, cfg, weather, 0);
    places := FindingsHavePlaces(cfg, o.trips, weather, 0);
    assert forall i | 0 <= i < |places| :: o.world.nodes[|w.nodes| + i] == o.world.nodes[|w.nodes|..][i];
  }

  // ---------------------------------------------------------------------------
  // Recycled rows
  // ---------------------------------------------------------------------------

  /** The rows in progress that hold no live lease under their id. */
  ghost function OrphanPlaces(w: World, now: int): set<nat> {
    set i: nat | i < |w.nodes| && w.nodes[i].status == InProgress
                 && (w.nodes[i].id in w.locks ==> w.locks[w.nodes[i].id].expiresAt < now)
  }

  lemma RoundReclaims(w: World, cfg: Config, weather: nat -> Round, k: nat)
    ensures RoundOf(w, cfg, weather, k).0.reclaimed
         == if k < cfg.maxRounds && (cfg.ceiling.Some? ==> w.spent < cfg.ceiling.value)
            then |OrphanPlaces(w, weather(k).sweepTime)| else 0
  {
    var locks := Sweep(w.locks, weather(k).sweepTime);
    SelectCounts(w.nodes, OrphanTest(locks));
    assert Places(w.nodes, OrphanTest(locks)) == OrphanPlaces(w, weather(k).sweepTime);
  }

  /** The orphans met by the rounds from `k` on, round by round. */
  ghost function OrphansMet(w: World, cfg: Config, weather: nat -> Round, k: nat): nat
    decreases cfg.maxRounds - k
  {
    if k >= cfg.maxRounds || (cfg.ceiling.Some? && w.spent >= cfg.ceiling.value) then 0
    else
      var (first, on) := RoundOf(w, cfg, weather, k);
      |OrphanPlaces(w, weather(k).sweepTime)| + if on then OrphansMet(first.world, cfg, weather, k + 1) else 0
  }

  /** The run counts every row that was in progress without a live lease when one of its rounds began. */
  lemma {:induction false} ReclaimedIsExact(w: World, cfg: Config, weather: nat -> Round, k: nat)
    ensures Run(w, cfg, weather, k).reclaimed == OrphansMet(w, cfg, weather, k)
    decreases cfg.maxRounds - k
  {
    RoundReclaims(w, cfg, weather, k);
    if !RoundOf(w, cfg, weather, k).1 {
    } else {
      ReclaimedIsExact(RoundOf(w, cfg, weather, k).0.world, cfg, weather, k + 1);
    }
  }

  // ---------------------------------------------------------------------------
  // A hook that fails
  // ---------------------------------------------------------------------------

  /**
   An apply hook that throws on an accepted reply ends the cycle: the task stays in progress, every
   other row as it was, and the reply is paid and booked all the same. A rejected reply never gets
   that far.
   */
  lemma FailedApplyLeavesTaskInProgress(w: World, cfg: Config, agentId: string, round: Round)
    requires (cfg.ceiling.Some? ==> w.spent < cfg.ceiling.value) && round.reply.Reply?
    requires FindNextTask(w.nodes, w.edges, round.pickTime).Some?
    ensures var (next, result) := Cycle(w, cfg, agentId, round, false);
            var id := FindNextTask(w.nodes, w.edges, round.pickTime).value.node.id;
            && result.id == id && next.spent == w.spent + Tokens(round.reply)
            && |next.ledger| == |w.ledger| + (if round.reply.recorded then 1 else 0)
            && (cfg.accepts(round.reply.text) ==>
                  && result.Aborted? && |next.nodes| == |w.nodes|
                  && forall i | 0 <= i < |w.nodes| ::
                       next.nodes[i] == if w.nodes[i].id == id then w.nodes[i].(status := InProgress) else w.nodes[i])
            && (!cfg.accepts(round.reply.text) ==>
                  (next, result) == Cycle(w, cfg, agentId, round, true) && result.BlockedTask?)
  {
    SetStatusAt(w.nodes, FindNextTask(w.nodes, w.edges, round.pickTime).value.node.id, InProgress);
  }
}
