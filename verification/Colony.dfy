/**
 The colony driver (src/swarming/run.ts) and one ant cycle (src/swarming/ant-runner.ts).

 `Cycle` and `Run` are the specification on immutable worlds; the classes and methods below
 follow the statements of the source and are proved to compute exactly that specification.
 `ColonyTheorems` proves what `Run` promises over whole runs.
 */
module Colony {
  import opened Prelude
  import opened ColonyGraph
  import opened Picker

  /** What the model port gives back, and its price. `recorded` tells if the best-effort ledger write succeeded. */
  datatype Reply = Throws | Reply(text: string, inputTokens: int, outputTokens: int, costUsd: real, recorded: bool)

  /** Everything one round takes from outside: clock readings, reply, random id. */
  datatype Round = Round(
    sweepTime: int, gateTime: int, pickTime: int, claimTime: int, findingTime: int,
    reply: Reply, findingId: string)

  /** `accepts` is the result parser's verdict on a reply text. */
  datatype Config = Config(
    prefix: string, ants: int, maxRounds: int, ceiling: Option<int>, accepts: string -> bool)

  datatype Tier = Cheap | Build | Frontier

  datatype LedgerRow = LedgerRow(
    nodeId: string, agentId: string, tier: Tier, inputTokens: int, outputTokens: int, costUsd: real)

  datatype World = World(
    nodes: seq<Node>, edges: seq<Edge>, locks: map<string, Lock>, ledger: seq<LedgerRow>, spent: int)

  /** An aborted cycle is one that an exception of the model or of the apply hook ends. */
  datatype CycleResult = BudgetExhausted | NoTask | DoneTask(id: string, tier: Tier)
                       | BlockedTask(id: string, tier: Tier) | Aborted(id: string, tier: Tier)

  // ---------------------------------------------------------------------------
  // Routing (src/core/colony/task-caste.ts)
  // ---------------------------------------------------------------------------

  datatype Caste = Minima | Pequena | Media | Soldado

  function BaseCaste(priority: int): Caste {
    if priority <= 1 then Soldado else if priority <= 3 then Media else if priority == 4 then Pequena else Minima
  }

  function Bump(caste: Caste): Caste {
    match caste
    case Minima => Pequena
    case Pequena => Media
    case _ => Soldado
  }

  function CasteOf(n: Node): Caste {
    if n.kind == Bug then Minima
    else if n.kind == Epic then Soldado
    else if n.details.criteria >= 4 then Bump(BaseCaste(n.details.priority))
    else BaseCaste(n.details.priority)
  }

  function TierOf(n: Node): Tier {
    match CasteOf(n)
    case Soldado => Frontier
    case Media => Build
    case _ => Cheap
  }

  function Tokens(reply: Reply): nat {
    if reply.Reply? && reply.inputTokens + reply.outputTokens > 0 then reply.inputTokens + reply.outputTokens else 0
  }

  predicate Exceeded(ceiling: Option<int>, spent: int) {
    ceiling.Some? && spent >= ceiling.value
  }

  function AgentId(cfg: Config, k: nat): string {
    var ants := if cfg.ants > 1 then cfg.ants else 1;
    cfg.prefix + "-" + Decimal(k % ants + 1)
  }

  function Finding(round: Round, task: string): Node {
    Node(round.findingId, Risk, Backlog, false, Some(task), Details(2, 0, 0, M, None, round.findingTime))
  }

  // ---------------------------------------------------------------------------
  // Specification
  // ---------------------------------------------------------------------------

  function Recorded(ledger: seq<LedgerRow>, id: string, agentId: string, tier: Tier, reply: Reply): seq<LedgerRow> {
    if reply.Reply? && reply.recorded
    then ledger + [LedgerRow(id, agentId, tier, reply.inputTokens, reply.outputTokens, reply.costUsd)] else ledger
  }

  /** Books the reply to the claimed task, then closes the task or blocks it with a finding. */
  function Settle(claimed: World, cfg: Config, id: string, tier: Tier, agentId: string, round: Round,
                  applies: bool): (World, CycleResult)
    requires round.reply.Reply?
  {
    var paid := claimed.(
      spent := claimed.spent + Tokens(round.reply),
      ledger := Recorded(claimed.ledger, id, agentId, tier, round.reply));
    if !cfg.accepts(round.reply.text) then
      (paid.(nodes := SetStatus(paid.nodes, id, Blocked) + [Finding(round, id)]), BlockedTask(id, tier))
    else if !applies then (paid, Aborted(id, tier))
    else (paid.(nodes := SetStatus(paid.nodes, id, Done)), DoneTask(id, tier))
  }

  /** One cycle; `applies` says whether the hook that applies an accepted reply returns normally. */
  function Cycle(w: World, cfg: Config, agentId: string, round: Round, applies: bool): (World, CycleResult) {
    if Exceeded(cfg.ceiling, w.spent) then (w, BudgetExhausted)
    else
      match FindNextTask(w.nodes, w.edges, round.pickTime)
      case None => (w, NoTask)
      case Some(pick) =>
        var id := pick.node.id;
        var claimed := w.(
          nodes := SetStatus(w.nodes, id, InProgress),
          locks := TryClaim(w.locks, round.claimTime, id, agentId));
        if round.reply.Throws? then (claimed, Aborted(id, TierOf(pick.node)))
        else Settle(claimed, cfg, id, TierOf(pick.node), agentId, round, applies)
  }

  function Housekeep(w: World, now: int): World {
    var locks := Sweep(w.locks, now);
    w.(locks := locks, nodes := Reclaim(w.nodes, locks))
  }

  /** One executed cycle of a run: the task it took, the tier it asked and the reply it got. */
  datatype Trip = Trip(id: string, tier: Tier, reply: Reply)

  datatype Outcome = Outcome(
    world: World, closed: nat, blocked: nat, rounds: nat, reclaimed: nat, trips: seq<Trip>, aborted: bool)

  /** A round from the gate on: rows and leases are swept and `freed` rows recycled. */
  function CycleRound(kept: World, freed: nat, cfg: Config, weather: nat -> Round, k: nat): (Outcome, bool) {
    if FindNextTask(kept.nodes, kept.edges, weather(k).gateTime).None? then
      (Outcome(kept, 0, 0, 0, freed, [], false), false)
    else
      var (next, result) := Cycle(kept, cfg, AgentId(cfg, k), weather(k), true);
      match result
      case Aborted(id, tier) => (Outcome(next, 0, 0, 0, freed, [Trip(id, tier, weather(k).reply)], true), false)
      case DoneTask(id, tier) => (Outcome(next, 1, 0, 1, freed, [Trip(id, tier, weather(k).reply)], false), true)
      case BlockedTask(id, tier) => (Outcome(next, 0, 1, 1, freed, [Trip(id, tier, weather(k).reply)], false), true)
      case _ => (Outcome(next, 0, 0, 1, freed, [], false), false)
  }

  /** One pass through the loop body, and whether the loop goes on after it. */
  function RoundOf(w: World, cfg: Config, weather: nat -> Round, k: nat): (Outcome, bool) {
    if k >= cfg.maxRounds || Exceeded(cfg.ceiling, w.spent) then (Outcome(w, 0, 0, 0, 0, [], false), false)
    else
      var kept := Housekeep(w, weather(k).sweepTime);
      CycleRound(kept, CountOrphans(w.nodes, kept.locks), cfg, weather, k)
  }

  /** The counters of a first part of a run added to those of the rest. */
  function After(first: Outcome, rest: Outcome): Outcome {
    Outcome(rest.world, first.closed + rest.closed, first.blocked + rest.blocked, first.rounds + rest.rounds,
            first.reclaimed + rest.reclaimed, first.trips + rest.trips, rest.aborted)
  }

  /** The whole run from round `k` on. */
  function Run(w: World, cfg: Config, weather: nat -> Round, k: nat): Outcome
    decreases cfg.maxRounds - k
  {
    var (first, on) := RoundOf(w, cfg, weather, k);
    if on then After(first, Run(first.world, cfg, weather, k + 1)) else first
  }

  // ---------------------------------------------------------------------------
  // The mutable store and budget
  // ---------------------------------------------------------------------------

  /** Rows and count after the walk has passed the snapshot rows `seen`. */
  ghost function ResetUnlocked(before: seq<Node>, locks: map<string, Lock>, seen: seq<Node>): (seq<Node>, nat) {
    if seen == [] then (before, 0)
    else
      var (nodes, count) := ResetUnlocked(before, locks, seen[..|seen| - 1]);
      var task := seen[|seen| - 1];
      if task.id in locks then (nodes, count) else (SetStatus(nodes, task.id, Backlog), count + 1)
  }

  /** Row `before` once the walk has passed the rows `seen`. */
  ghost function ResetRow(before: Node, locks: map<string, Lock>, seen: seq<Node>): Node {
    if Orphaned(before, locks) && before in seen then before.(status := Backlog) else before
  }

  lemma ResetOne(before: seq<Node>, locks: map<string, Lock>, nodes: seq<Node>, first: seq<Node>, task: Node)
    requires UniqueIds(before) && task in before && task.status == InProgress && |nodes| == |before|
    requires forall j | 0 <= j < |before| :: nodes[j] == ResetRow(before[j], locks, first)
    ensures var after := if task.id in locks then nodes else SetStatus(nodes, task.id, Backlog);
            && |after| == |before|
            && forall j | 0 <= j < |before| :: after[j] == ResetRow(before[j], locks, first + [task])
  {
    SetStatusAt(nodes, task.id, Backlog);
    forall j | 0 <= j < |before|
      ensures before[j].id == task.id <==> before[j] == task
    {
    }
  }

  lemma {:induction false} ResetUnlockedAt(before: seq<Node>, locks: map<string, Lock>, seen: seq<Node>)
    requires UniqueIds(before) && forall n <- seen :: n in before && n.status == InProgress
    ensures var nodes := ResetUnlocked(before, locks, seen).0;
            |nodes| == |before| && forall j | 0 <= j < |before| :: nodes[j] == ResetRow(before[j], locks, seen)
  {
    if seen == [] {
    } else {
      var first, task := seen[..|seen| - 1], seen[|seen| - 1];
      assert seen == first + [task];
      ResetUnlockedAt(before, locks, first);
      ResetOne(before, locks, ResetUnlocked(before, locks, first).0, first, task);
    }
  }

  lemma {:induction false} ResetCount(before: seq<Node>, locks: map<string, Lock>, seen: seq<Node>)
    requires forall n <- seen :: n.status == InProgress
    ensures ResetUnlocked(before, locks, seen).1 == |Select(seen, OrphanTest(locks))|
  {
    if seen == [] {
    } else {
      var first, task := seen[..|seen| - 1], seen[|seen| - 1];
      assert seen == first + [task];
      ResetCount(before, locks, first);
      SelectConcat(first, [task], OrphanTest(locks));
    }
  }

  lemma ResetRowsAreReclaim(before: seq<Node>, locks: map<string, Lock>, nodes: seq<Node>)
    requires |nodes| == |before|
    requires forall j | 0 <= j < |before| :: nodes[j] == ResetRow(before[j], locks, Select(before, IsInProgress))
    ensures nodes == Reclaim(before, locks)
  {
    ReclaimAt(before, locks);
    SelectMembers(before, IsInProgress);
    forall j | 0 <= j < |before|
      ensures nodes[j] == Reclaim(before, locks)[j]
    {
      assert before[j] in before;
    }
  }

  /** Filtering the in-progress rows for orphans is filtering all rows for orphans. */
  lemma {:induction false} SelectTwice(nodes: seq<Node>, locks: map<string, Lock>)
    ensures Select(Select(nodes, IsInProgress), OrphanTest(locks))
         == Select(nodes, OrphanTest(locks))
  {
    if nodes == [] {
    } else {
      SelectTwice(nodes[1..], locks);
      var rest := Select(nodes[1..], IsInProgress);
      assert ([nodes[0]] + rest)[1..] == rest;
    }
  }

  lemma ResetUnlockedIsReclaim(before: seq<Node>, locks: map<string, Lock>)
    requires UniqueIds(before)
    ensures ResetUnlocked(before, locks, Select(before, IsInProgress))
         == (Reclaim(before, locks), CountOrphans(before, locks))
  {
    var seen := Select(before, IsInProgress);
    SelectMembers(before, IsInProgress);
    ResetUnlockedAt(before, locks, seen);
    ResetRowsAreReclaim(before, locks, ResetUnlocked(before, locks, seen).0);
    ResetCount(before, locks, seen);
    SelectTwice(before, locks);
  }

  datatype TaskCost = TaskCost(tokens: int, costUsd: real)

  function AddCost(a: TaskCost, b: TaskCost): TaskCost {
    TaskCost(a.tokens + b.tokens, a.costUsd + b.costUsd)
  }

  /** What the ledger charges a task. */
  function CostOf(ledger: seq<LedgerRow>, task: string): TaskCost {
    if ledger == [] then TaskCost(0, 0.0)
    else
      var row := ledger[|ledger| - 1];
      var before := CostOf(ledger[..|ledger| - 1], task);
      if row.nodeId == task then AddCost(before, TaskCost(row.inputTokens + row.outputTokens, row.costUsd)) else before
  }

  /** The cost per task: exactly the tasks the ledger names, each with the sum of its rows. */
  ghost predicate SumsUp(costs: map<string, TaskCost>, ledger: seq<LedgerRow>) {
    && (forall task :: task in costs <==> exists row <- ledger :: row.nodeId == task)
    && (forall task <- costs.Keys :: costs[task] == CostOf(ledger, task))
  }

  lemma {:induction false} NoCostWithoutRow(ledger: seq<LedgerRow>, task: string)
    requires forall row <- ledger :: row.nodeId != task
    ensures CostOf(ledger, task) == TaskCost(0, 0.0)
  {
    if ledger == [] {
    } else {
      assert forall row <- ledger[..|ledger| - 1] :: row in ledger;
      NoCostWithoutRow(ledger[..|ledger| - 1], task);
    }
  }

  lemma OneMoreRow(costs: map<string, TaskCost>, ledger: seq<LedgerRow>, row: LedgerRow)
    requires SumsUp(costs, ledger)
    ensures SumsUp(costs[row.nodeId := AddCost(if row.nodeId in costs then costs[row.nodeId] else TaskCost(0, 0.0),
                                               TaskCost(row.inputTokens + row.outputTokens, row.costUsd))],
                   ledger + [row])
  {
    assert (ledger + [row])[..|ledger|] == ledger;
    assert row in ledger + [row] && forall r <- ledger :: r in ledger + [row];
    if row.nodeId !in costs { NoCostWithoutRow(ledger, row.nodeId); }
  }

  class SqliteStore {
    var nodes: seq<Node>
    const edges: seq<Edge>
    var locks: map<string, Lock>
    var ledger: seq<LedgerRow>

    constructor (nodes: seq<Node>, edges: seq<Edge>, locks: map<string, Lock>, ledger: seq<LedgerRow>)
      ensures this.nodes == nodes && this.edges == edges && this.locks == locks && this.ledger == ledger
    {
      this.nodes, this.edges, this.locks, this.ledger := nodes, edges, locks, ledger;
    }

    method UpdateNodeStatus(id: string, status: Status)
      modifies this`nodes
      ensures nodes == SetStatus(old(nodes), id, status)
    {
      nodes := SetStatus(nodes, id, status);
    }

    method InsertNode(n: Node)
      modifies this`nodes
      ensures nodes == old(nodes) + [n]
    {
      nodes := nodes + [n];
    }

    method SweepStaleLeases(now: int)
      modifies this`locks
      ensures locks == Sweep(old(locks), now)
    {
      locks := Sweep(locks, now);
    }

    /** Walks a snapshot of the in-progress rows and resets those that hold no lease. */
    method ReclaimOrphanedTasks() returns (reclaimed: nat)
      requires UniqueIds(nodes)
      modifies this`nodes
      ensures nodes == Reclaim(old(nodes), locks)
      ensures reclaimed == CountOrphans(old(nodes), locks)
    {
      var snapshot := Select(nodes, IsInProgress);
      ghost var before := nodes;
      reclaimed := 0;
      var i := 0;
      while i < |snapshot|
        invariant 0 <= i <= |snapshot|
        invariant (nodes, reclaimed) == ResetUnlocked(before, locks, snapshot[..i])
      {
        var task := snapshot[i];
        assert snapshot[..i + 1][..i] == snapshot[..i];
        if task.id !in locks {
          UpdateNodeStatus(task.id, Backlog);
          reclaimed := reclaimed + 1;
        }
        i := i + 1;
      }
      assert snapshot[..i] == snapshot;
      ResetUnlockedIsReclaim(before, locks);
    }

    /** Groups the ledger by task. */
    method PerTaskCost() returns (costs: map<string, TaskCost>)
      ensures SumsUp(costs, ledger)
    {
      costs := map[];
      var i := 0;
      while i < |ledger|
        invariant 0 <= i <= |ledger|
        invariant SumsUp(costs, ledger[..i])
      {
        var row := ledger[i];
        OneMoreRow(costs, ledger[..i], row);
        assert ledger[..i + 1] == ledger[..i] + [row];
        costs := costs[row.nodeId := AddCost(if row.nodeId in costs then costs[row.nodeId] else TaskCost(0, 0.0),
                                             TaskCost(row.inputTokens + row.outputTokens, row.costUsd))];
        i := i + 1;
      }
      assert ledger[..i] == ledger;
    }
  }

  class BudgetGuard {
    const ceiling: Option<int>
    var used: int

    constructor (ceiling: Option<int>)
      ensures this.ceiling == ceiling && used == 0
    {
      this.ceiling, used := ceiling, 0;
    }

    /** Non-positive amounts are ignored. */
    method Add(tokens: int)
      modifies this
      ensures used == if tokens > 0 then old(used) + tokens else old(used)
    {
      if tokens > 0 { used := used + tokens; }
    }
  }

  ghost function WorldOf(store: SqliteStore, budget: BudgetGuard): World
    reads store, budget
  {
    World(store.nodes, store.edges, store.locks, store.ledger, budget.used)
  }

  method RegisterFinding(store: SqliteStore, task: string, round: Round)
    modifies store`nodes
    ensures store.nodes == old(store.nodes) + [Finding(round, task)]
  {
    store.InsertNode(Finding(round, task));
  }

  /** The part of the cycle after the model has answered. */
  method SettleReply(store: SqliteStore, budget: BudgetGuard, cfg: Config, id: string, tier: Tier, agentId: string,
                     round: Round, applies: bool)
    returns (result: CycleResult)
    requires round.reply.Reply?
    modifies store, budget
    ensures (WorldOf(store, budget), result)
         == Settle(old(WorldOf(store, budget)), cfg, id, tier, agentId, round, applies)
  {
    var response := round.reply;
    budget.Add(response.inputTokens + response.outputTokens);
    if response.recorded {
      var row := LedgerRow(id, agentId, tier, response.inputTokens, response.outputTokens, response.costUsd);
      store.ledger := store.ledger + [row];
    }
    if !cfg.accepts(response.text) {
      store.UpdateNodeStatus(id, Blocked);
      RegisterFinding(store, id, round);
      return BlockedTask(id, tier);
    }
    if !applies { return Aborted(id, tier); }
    store.UpdateNodeStatus(id, Done);
    return DoneTask(id, tier);
  }

  /** One cycle: claim, route, execute, record, parse, close or block. */
  method RunAntCycle(store: SqliteStore, budget: BudgetGuard, cfg: Config, agentId: string, round: Round, applies: bool)
    returns (result: CycleResult)
    requires budget.ceiling == cfg.ceiling && UniqueIds(store.nodes)
    modifies store, budget
    ensures (WorldOf(store, budget), result) == Cycle(old(WorldOf(store, budget)), cfg, agentId, round, applies)
  {
    if Exceeded(budget.ceiling, budget.used) { return BudgetExhausted; }
    var next := FindNext(store.nodes, store.edges, round.pickTime);
    if next.None? { return NoTask; }
    var id, tier := next.value.node.id, TierOf(next.value.node);
    store.locks := TryClaim(store.locks, round.claimTime, id, agentId);
    store.UpdateNodeStatus(id, InProgress);
    if round.reply.Throws? { return Aborted(id, tier); }
    result := SettleReply(store, budget, cfg, id, tier, agentId, round, applies);
  }

  // ---------------------------------------------------------------------------
  // The report
  // ---------------------------------------------------------------------------

  datatype Tally = Tally(closed: nat, blocked: nat, rounds: nat, reclaimed: nat, aborted: bool)

  datatype Report = Report(
    tasksClosed: nat, tasksBlocked: nat, rounds: nat, reclaimed: nat, perTaskCost: map<string, TaskCost>)

  ghost function TallyOf(o: Outcome): Tally {
    Tally(o.closed, o.blocked, o.rounds, o.reclaimed, o.aborted)
  }

  function Plus(a: Tally, b: Tally): Tally {
    Tally(a.closed + b.closed, a.blocked + b.blocked, a.rounds + b.rounds, a.reclaimed + b.reclaimed, b.aborted)
  }

  /** The report of a run that no exception has ended. */
  ghost predicate Reports(report: Report, o: Outcome) {
    && report.tasksClosed == o.closed && report.tasksBlocked == o.blocked
    && report.rounds == o.rounds && report.reclaimed == o.reclaimed
    && SumsUp(report.perTaskCost, o.world.ledger)
  }

  // ---------------------------------------------------------------------------
  // The loop
  // ---------------------------------------------------------------------------

  /** No finding id of the rounds from `k` on is taken or used twice. */
  ghost predicate FreshFindings(nodes: seq<Node>, weather: nat -> Round, k: nat) {
    && (forall j: nat | j >= k :: weather(j).findingId !in Ids(nodes))
    && (forall i: nat, j: nat | k <= i < j :: weather(i).findingId != weather(j).findingId)
  }

  lemma SameIdsRowByRow(a: seq<Node>, b: seq<Node>)
    requires |a| == |b| && forall i | 0 <= i < |a| :: a[i].id == b[i].id
    ensures Ids(a) == Ids(b)
    ensures UniqueIds(a) ==> UniqueIds(b)
  {
    forall id ensures id in Ids(a) <==> id in Ids(b) {
      if id in Ids(a) {
        var i :| 0 <= i < |a| && a[i].id == id;
        assert b[i] in b;
      }
      if id in Ids(b) {
        var i :| 0 <= i < |b| && b[i].id == id;
        assert a[i] in a;
      }
    }
  }

  lemma HousekeepKeepsIds(w: World, now: int)
    ensures UniqueIds(w.nodes) ==> UniqueIds(Housekeep(w, now).nodes)
    ensures Ids(Housekeep(w, now).nodes) == Ids(w.nodes)
  {
    ReclaimAt(w.nodes, Sweep(w.locks, now));
    SameIdsRowByRow(w.nodes, Housekeep(w, now).nodes);
  }

  lemma SetStatusKeepsIds(nodes: seq<Node>, id: string, status: Status)
    ensures UniqueIds(nodes) ==> UniqueIds(SetStatus(nodes, id, status))
    ensures Ids(SetStatus(nodes, id, status)) == Ids(nodes)
  {
    SetStatusAt(nodes, id, status);
    SameIdsRowByRow(nodes, SetStatus(nodes, id, status));
  }

  lemma AppendKeepsIds(nodes: seq<Node>, n: Node)
    requires UniqueIds(nodes) && n.id !in Ids(nodes)
    ensures UniqueIds(nodes + [n]) && Ids(nodes + [n]) == Ids(nodes) + {n.id}
  {
    assert forall i | 0 <= i < |nodes| :: nodes[i] in nodes;
  }

  lemma CycleKeepsIds(w: World, cfg: Config, agentId: string, weather: nat -> Round, k: nat)
    requires UniqueIds(w.nodes) && FreshFindings(w.nodes, weather, k)
    ensures UniqueIds(Cycle(w, cfg, agentId, weather(k), true).0.nodes)
    ensures FreshFindings(Cycle(w, cfg, agentId, weather(k), true).0.nodes, weather, k + 1)
  {
    var next := Cycle(w, cfg, agentId, weather(k), true).0.nodes;
    var pick := FindNextTask(w.nodes, w.edges, weather(k).pickTime);
    assert UniqueIds(next) && Ids(next) <= Ids(w.nodes) + {weather(k).findingId} by {
      if pick.Some? {
        var id := pick.value.node.id;
        var started := SetStatus(w.nodes, id, InProgress);
        SetStatusKeepsIds(w.nodes, id, InProgress);
        SetStatusKeepsIds(started, id, Done);
        SetStatusKeepsIds(started, id, Blocked);
        AppendKeepsIds(SetStatus(started, id, Blocked), Finding(weather(k), id));
      }
    }
  }

  lemma RoundKeepsIds(w: World, cfg: Config, weather: nat -> Round, k: nat)
    requires UniqueIds(w.nodes) && FreshFindings(w.nodes, weather, k)
    ensures UniqueIds(RoundOf(w, cfg, weather, k).0.world.nodes)
    ensures RoundOf(w, cfg, weather, k).1 ==> FreshFindings(RoundOf(w, cfg, weather, k).0.world.nodes, weather, k + 1)
  {
    var kept := Housekeep(w, weather(k).sweepTime);
    HousekeepKeepsIds(w, weather(k).sweepTime);
    CycleKeepsIds(kept, cfg, AgentId(cfg, k), weather, k);
    var (o, on) := RoundOf(w, cfg, weather, k);
    var cycled := Cycle(kept, cfg, AgentId(cfg, k), weather(k), true).0.nodes;
    assert o.world.nodes == cycled || (!on && (o.world.nodes == w.nodes || o.world.nodes == kept.nodes));
  }

  lemma AfterIsAssociative(a: Outcome, b: Outcome, c: Outcome)
    ensures After(After(a, b), c) == After(a, After(b, c))
  {
    assert a.trips + b.trips + c.trips == a.trips + (b.trips + c.trips);
  }

  lemma RunStep(sofar: Outcome, cfg: Config, weather: nat -> Round, k: nat)
    ensures var (first, on) := RoundOf(sofar.world, cfg, weather, k);
            After(sofar, Run(sofar.world, cfg, weather, k))
            == if on then After(After(sofar, first), Run(first.world, cfg, weather, k + 1)) else After(sofar, first)
  {
    var (first, on) := RoundOf(sofar.world, cfg, weather, k);
    AfterIsAssociative(sofar, first, Run(first.world, cfg, weather, k + 1));
  }

  lemma NoRoundLeft(sofar: Outcome, cfg: Config, weather: nat -> Round, k: nat)
    requires k >= cfg.maxRounds && !sofar.aborted
    ensures After(sofar, Run(sofar.world, cfg, weather, k)) == sofar
  {
    assert sofar.trips + [] == sofar.trips;
  }

  /** The body of the driver's loop: budget, sweep, reclaim, gate, cycle. The colony passes no apply hook. */
  method RunRound(store: SqliteStore, budget: BudgetGuard, cfg: Config, k: nat, round: Round,
                  ghost weather: nat -> Round)
    returns (tally: Tally, on: bool, ghost first: Outcome)
    requires budget.ceiling == cfg.ceiling && k < cfg.maxRounds && round == weather(k)
    requires UniqueIds(store.nodes) && FreshFindings(store.nodes, weather, k)
    modifies store, budget
    ensures (first, on) == RoundOf(old(WorldOf(store, budget)), cfg, weather, k)
    ensures WorldOf(store, budget) == first.world && tally == TallyOf(first) && (on ==> !tally.aborted)
    ensures on ==> UniqueIds(store.nodes) && FreshFindings(store.nodes, weather, k + 1)
  {
    first := RoundOf(WorldOf(store, budget), cfg, weather, k).0;
    RoundKeepsIds(WorldOf(store, budget), cfg, weather, k);
    if Exceeded(budget.ceiling, budget.used) { return Tally(0, 0, 0, 0, false), false, first; }
    HousekeepKeepsIds(WorldOf(store, budget), round.sweepTime);
    store.SweepStaleLeases(round.sweepTime);
    var freed := store.ReclaimOrphanedTasks();
    var gate := FindNext(store.nodes, store.edges, round.gateTime);
    if gate.None? { return Tally(0, 0, 0, freed, false), false, first; }
    var result := RunAntCycle(store, budget, cfg, AgentId(cfg, k), round, true);
    match result {
      case Aborted(_, _) => return Tally(0, 0, 0, freed, true), false, first;
      case DoneTask(_, _) => return Tally(1, 0, 1, freed, false), true, first;
      case BlockedTask(_, _) => return Tally(0, 1, 1, freed, false), true, first;
      case _ => return Tally(0, 0, 1, freed, false), false, first;
    }
  }

  /** One round with its counters added to those of the rounds before. */
  method CountRound(store: SqliteStore, budget: BudgetGuard, cfg: Config, weather: nat -> Round, k: nat, tally: Tally,
                    ghost sofar: Outcome)
    returns (added: Tally, on: bool, ghost after: Outcome)
    requires budget.ceiling == cfg.ceiling && k < cfg.maxRounds
    requires UniqueIds(store.nodes) && FreshFindings(store.nodes, weather, k)
    requires sofar.world == WorldOf(store, budget) && tally == TallyOf(sofar)
    modifies store, budget
    ensures after.world == WorldOf(store, budget) && added == TallyOf(after)
    ensures After(sofar, Run(sofar.world, cfg, weather, k))
         == if on then After(after, Run(after.world, cfg, weather, k + 1)) else after
    ensures on ==> !added.aborted && UniqueIds(store.nodes) && FreshFindings(store.nodes, weather, k + 1)
  {
    RunStep(sofar, cfg, weather, k);
    var counted;
    ghost var first;
    counted, on, first := RunRound(store, budget, cfg, k, weather(k), weather);
    after := After(sofar, first);
    added := Plus(tally, counted);
  }

  method RunRounds(store: SqliteStore, budget: BudgetGuard, cfg: Config, weather: nat -> Round)
    returns (tally: Tally, ghost trips: seq<Trip>)
    requires budget.ceiling == cfg.ceiling
    requires UniqueIds(store.nodes) && FreshFindings(store.nodes, weather, 0)
    modifies store, budget
    ensures var o := Run(old(WorldOf(store, budget)), cfg, weather, 0);
            WorldOf(store, budget) == o.world && tally == TallyOf(o) && trips == o.trips
  {
    tally := Tally(0, 0, 0, 0, false);
    var k := 0;
    ghost var whole := Run(WorldOf(store, budget), cfg, weather, 0);
    ghost var sofar := Outcome(WorldOf(store, budget), 0, 0, 0, 0, [], false);
    assert whole == After(sofar, whole);
    while k < cfg.maxRounds
      invariant k >= 0
      invariant UniqueIds(store.nodes)
      invariant FreshFindings(store.nodes, weather, k)
      invariant sofar.world == WorldOf(store, budget)
      invariant tally == TallyOf(sofar) && !tally.aborted
      invariant whole == After(sofar, Run(sofar.world, cfg, weather, k))
    {
      var on;
      tally, on, sofar := CountRound(store, budget, cfg, weather, k, tally, sofar);
      if !on { return tally, sofar.trips; }
      k := k + 1;
    }
    NoRoundLeft(sofar, cfg, weather, k);
    return tally, sofar.trips;
  }

  /** The loop of the driver; an exception of the model leaves it at once, without a report. */
  method RunColony(store: SqliteStore, budget: BudgetGuard, cfg: Config, weather: nat -> Round)
    returns (report: Option<Report>, ghost trips: seq<Trip>)
    requires budget.ceiling == cfg.ceiling
    requires UniqueIds(store.nodes) && FreshFindings(store.nodes, weather, 0)
    modifies store, budget
    ensures var o := Run(old(WorldOf(store, budget)), cfg, weather, 0);
            && WorldOf(store, budget) == o.world && trips == o.trips
            && (report.None? <==> o.aborted) && (report.Some? ==> Reports(report.value, o))
  {
    var tally;
    tally, trips := RunRounds(store, budget, cfg, weather);
    if tally.aborted { return None, trips; }
    var costs := store.PerTaskCost();
    report := Some(Report(tally.closed, tally.blocked, tally.rounds, tally.reclaimed, costs));
  }
}
