/**
 The tool dispatcher of the MCP bridge with the task lifecycle and the result cache
 (packages/mcp-server/src/tool-delegates.ts).
 */
module Bridge {
  import opened Prelude
  import opened BridgeStore
  import opened BridgeReads

  // ---------------------------------------------------------------------------
  // The tools
  // ---------------------------------------------------------------------------

  datatype Tool =
    | AddNode(freshId: string, kind: string, fields: Fields)
    | UpdateStatus(nodeId: string, status: string)
    | StartTask(wanted: Option<string>)
    | FinishTask(nodeId: string, testFiles: seq<string>)
    | UpdateNode(nodeId: string, fields: Fields)
    | Read(query: Query)
    | CodeIntel(name: string)

  /** `promotion` carries the number of siblings when the epic is announced. */
  datatype Answer =
    | Created(id: string)
    | Updated(id: string)
    | NotFound
    | NoneLeft
    | Started(id: string, acceptance: seq<string>, children: nat)
    | DodFailed(hasAc: bool, hasDesc: bool, flowValid: bool, hasTests: bool)
    | Finished(id: string, promotion: Option<nat>)
    | Shown(view: View)
    | Unavailable

  predicate Mutating(tool: Tool) {
    !tool.Read? && !tool.CodeIntel?
  }

  /** The row a start is about: the named one, or the next task. */
  function Chosen(t: Table, nodeId: Option<string>): Option<Node> {
    if NonEmpty(nodeId) then Find(t, nodeId.value) else FindNextTask(t)
  }

  function Start(t: Table, nodeId: Option<string>, now: int): (Table, Answer) {
    var found := Chosen(t, nodeId);
    if found.None? then (t, if NonEmpty(nodeId) then NotFound else NoneLeft)
    else
      var node := found.value;
      var after := SetStatus(t, node.id, "in_progress", now);
      (after, Started(node.id, OrElse(node.acceptance, []), |Children(after, node.id)|))
  }

  predicate AllDone(nodes: seq<Node>, self: string) {
    nodes == [] || ((nodes[0].status == "done" || nodes[0].id == self) && AllDone(nodes[1..], self))
  }

  predicate FlowValid(n: Node) {
    n.status == "in_progress" || n.status == "backlog"
  }

  /** The checks that count for finishing a row; test files are reported only. */
  predicate Qualifies(n: Node) {
    NonEmpty(n.acceptance) && NonEmpty(n.description) && FlowValid(n)
  }

  function Finish(t: Table, nodeId: string, testFiles: seq<string>, now: int): (Table, Answer) {
    match Find(t, nodeId)
    case None => (t, NotFound)
    case Some(node) =>
      if !Qualifies(node) then
        (t, DodFailed(NonEmpty(node.acceptance), NonEmpty(node.description), FlowValid(node), testFiles != []))
      else
        var after := SetStatus(t, node.id, "done", now);
        var promotion :=
          if NonEmpty(node.parentId) && AllDone(Children(after, node.parentId.value), node.id)
          then Some(|Children(after, node.parentId.value)|) else None;
        (after, Finished(node.id, promotion))
  }

  function NewNode(id: string, kind: string, f: Fields, now: int): Node {
    Node(id, kind, OrElse(f.title, ""), f.description, "backlog", OrElse(f.priority, 3), f.xpSize, f.parentId,
         f.acceptance, f.tags, now, now)
  }

  /** One uncached dispatch. The code-intelligence adapter is absent. */
  function Dispatch(t: Table, edges: seq<Edge>, tool: Tool, now: int): (Table, Answer) {
    match tool
    case AddNode(id, kind, f) => (t + [NewNode(id, kind, f, now)], Created(id))
    case UpdateStatus(id, status) =>
      if Find(t, id).None? then (t, NotFound) else (SetStatus(t, id, status, now), Updated(id))
    case StartTask(nodeId) => Start(t, nodeId, now)
    case FinishTask(id, testFiles) => Finish(t, id, testFiles, now)
    case UpdateNode(id, f) =>
      if Find(t, id).None? then (t, NotFound) else (PatchRow(t, id, f, now), Updated(id))
    case Read(query) => (t, Shown(Answered(Looks(t), edges, query)))
    case CodeIntel(_) => (t, Unavailable)
  }

  type Cache = map<Query, View>

  /** The dispatch with its cache. */
  function Delegate(t: Table, edges: seq<Edge>, cache: Cache, cached: bool, tool: Tool, now: int)
    : (Table, Cache, Answer)
  {
    if cached && tool.Read? && tool.query in cache then (t, cache, Shown(cache[tool.query]))
    else
      var (after, r) := Dispatch(t, edges, tool, now);
      (after, if cached && tool.Read? then cache[tool.query := r.view] else cache, r)
  }

  class Server {
    var table: Table
    const edges: seq<Edge>
    var cache: Cache
    const cached: bool

    constructor (table: Table, edges: seq<Edge>, cached: bool)
      ensures this.table == table && this.edges == edges && this.cached == cached && cache == map[]
    {
      this.table, this.edges, this.cached, cache := table, edges, cached, map[];
    }

    /** One line per epic, with its children and how many of them are done. */
    method HandleStructure() returns (view: View)
      ensures view == StructureOf(Looks(table))
    {
      var looks := Looks(table);
      var epics := Epics(looks);
      var lines: seq<EpicLine> := [];
      var i := 0;
      while i < |epics|
        invariant 0 <= i <= |epics| && lines == EpicLines(looks, epics[..i])
      {
        OneMoreEpic(looks, epics, i);
        lines := lines + [EpicLineOf(looks, epics[i])];
        i := i + 1;
      }
      assert epics[..i] == epics;
      return Structure(lines);
    }

    method HandleAnalyze(mode: string, nodeId: Option<string>) returns (view: View)
      ensures view == AnalyzeView(Looks(table), edges, mode, nodeId)
    {
      if mode == "structure" {
        view := HandleStructure();
      } else if mode == "full" {
        var structure := HandleStructure();
        view := Whole(StatsOf(Looks(table)), structure, Blockers(BlockersOf(edges)));
      } else {
        view := AnalyzeView(Looks(table), edges, mode, nodeId);
      }
    }

    method HandleRead(query: Query) returns (view: View)
      ensures view == Answered(Looks(table), edges, query)
    {
      match query {
        case Analyze(mode, nodeId) => view := HandleAnalyze(mode, nodeId);
        case Snapshot => view := HandleAnalyze("full", None);
        case _ => view := Answered(Looks(table), edges, query);
      }
    }

    method HandleStartTask(nodeId: Option<string>, now: int) returns (r: Answer)
      modifies this`table
      ensures (table, r) == Start(old(table), nodeId, now)
    {
      var node;
      if NonEmpty(nodeId) {
        node := Find(table, nodeId.value);
        if node.None? { return NotFound; }
      } else {
        node := FindNextTask(table);
        if node.None? { return NoneLeft; }
      }
      table := SetStatus(table, node.value.id, "in_progress", now);
      var children := Children(table, node.value.id);
      return Started(node.value.id, OrElse(node.value.acceptance, []), |children|);
    }

    method HandleFinishTask(nodeId: string, testFiles: seq<string>, now: int) returns (r: Answer)
      modifies this`table
      ensures (table, r) == Finish(old(table), nodeId, testFiles, now)
    {
      var found := Find(table, nodeId);
      if found.None? { return NotFound; }
      var node := found.value;
      var checks := [NonEmpty(node.acceptance), NonEmpty(node.description),
                     node.status == "in_progress" || node.status == "backlog", testFiles != []];
      if !(checks[0] && checks[1] && checks[2]) { return DodFailed(checks[0], checks[1], checks[2], checks[3]); }
      table := SetStatus(table, node.id, "done", now);
      var promotion := None;
      if NonEmpty(node.parentId) {
        var siblings := Children(table, node.parentId.value);
        if AllDone(siblings, node.id) { promotion := Some(|siblings|); }
      }
      return Finished(node.id, promotion);
    }

    /** Looks in the cache, dispatches, and stores the result, both only for read-only tools. */
    method DelegateTool(tool: Tool, now: int) returns (r: Answer)
      modifies this
      ensures (table, cache, r) == Delegate(old(table), edges, old(cache), cached, tool, now)
    {
      if tool.CodeIntel? { return Unavailable; }
      if cached && !Mutating(tool) {
        if tool.query in cache { return Shown(cache[tool.query]); }
      }
      match tool {
        case AddNode(id, kind, f) =>
          table := table + [NewNode(id, kind, f, now)];
          r := Created(id);
        case UpdateStatus(id, status) =>
          r := NotFound;
          if Find(table, id).Some? {
            table := SetStatus(table, id, status, now);
            r := Updated(id);
          }
        case StartTask(nodeId) => r := HandleStartTask(nodeId, now);
        case FinishTask(id, testFiles) => r := HandleFinishTask(id, testFiles, now);
        case UpdateNode(id, f) =>
          r := NotFound;
          if Find(table, id).Some? {
            table := PatchRow(table, id, f, now);
            r := Updated(id);
          }
        case Read(query) =>
          var view := HandleRead(query);
          r := Shown(view);
      }
      if cached && !Mutating(tool) {
        cache := cache[tool.query := r.view];
      }
    }
  }

  // ---------------------------------------------------------------------------
  // Pulling tasks
  // ---------------------------------------------------------------------------

  ghost function PullableIds(t: Table): set<string> {
    set n | n in t && Pullable(n) :: n.id
  }

  lemma SetStatusKeepsIds(t: Table, id: string, status: string, now: int)
    requires UniqueIds(t)
    ensures UniqueIds(SetStatus(t, id, status, now))
  {
    SetStatusAt(t, id, status, now);
  }

  lemma StartedIsNotPullable(n: Node, now: int)
    ensures !Pullable(n.(status := "in_progress", updatedAt := now))
  {
    assert "backlog"[0] == 'b' && "in_progress"[0] == 'i';
  }

  lemma OtherPullablesStay(t: Table, id: string, now: int, n: Node)
    ensures n in SetStatus(t, id, "in_progress", now) && Pullable(n) ==> n in t && n.id != id
    ensures n in t && n.id != id ==> n in SetStatus(t, id, "in_progress", now)
  {
    var after := SetStatus(t, id, "in_progress", now);
    SetStatusAt(t, id, "in_progress", now);
    if n in after && Pullable(n) {
      var i :| 0 <= i < |after| && after[i] == n;
      StartedIsNotPullable(t[i], now);
      assert t[i] in t;
    }
    if n in t && n.id != id {
      var i :| 0 <= i < |t| && t[i] == n;
      assert after[i] in after;
    }
  }

  lemma StartTakesOne(t: Table, now: int)
    requires UniqueIds(t) && FindNextTask(t).Some?
    ensures var id := FindNextTask(t).value.id;
            var after := Start(t, None, now).0;
            && UniqueIds(after) && id in PullableIds(t) && PullableIds(after) == PullableIds(t) - {id}
            && |PullableIds(after)| == |PullableIds(t)| - 1
            && forall n | n in after && Pullable(n) :: n in t
  {
    var node := FindNextTask(t).value;
    var after := SetStatus(t, node.id, "in_progress", now);
    FindNextTaskIsLeast(t);
    SetStatusKeepsIds(t, node.id, "in_progress", now);
    forall n: Node
      ensures n in after && Pullable(n) ==> n in t && n.id != node.id
      ensures n in t && n.id != node.id ==> n in after
    {
      OtherPullablesStay(t, node.id, now, n);
    }
  }

  /** The nodes handed out by consecutive starts without an id, until none is left. */
  function Drain(t: Table, clock: nat -> int, k: nat): seq<Node>
    requires UniqueIds(t)
    decreases |PullableIds(t)|
  {
    match FindNextTask(t)
    case None => []
    case Some(n) =>
      StartTakesOne(t, clock(k));
      [n] + Drain(Start(t, None, clock(k)).0, clock, k + 1)
  }

  ghost function IdSet(nodes: seq<Node>): set<string> {
    set n | n in nodes :: n.id
  }

  /** Distinct rows in non-decreasing order of priority and age. */
  ghost predicate InOrder(nodes: seq<Node>) {
    forall i, j | 0 <= i < j < |nodes| :: nodes[i].id != nodes[j].id && NotAfter(nodes[i], nodes[j])
  }

  lemma {:induction false} HandedArePullable(t: Table, clock: nat -> int, k: nat, m: Node)
    requires UniqueIds(t) && m in Drain(t, clock, k)
    ensures m in t && Pullable(m)
    decreases |PullableIds(t)|
  {
    FindNextTaskIsLeast(t);
    var n := FindNextTask(t).value;
    StartTakesOne(t, clock(k));
    if m == n {
    } else {
      HandedArePullable(Start(t, None, clock(k)).0, clock, k + 1, m);
    }
  }

  /** A task left in the backlog by a start comes later than the one that the start took, and is not it. */
  lemma LeftComesLater(t: Table, now: int, m: Node)
    requires UniqueIds(t) && FindNextTask(t).Some? && m in Start(t, None, now).0 && Pullable(m)
    ensures m in t && m.id != FindNextTask(t).value.id && NotAfter(FindNextTask(t).value, m)
  {
    FindNextTaskIsLeast(t);
    StartTakesOne(t, now);
    assert m.id in PullableIds(Start(t, None, now).0);
  }

  lemma {:induction false} DrainIsInOrder(t: Table, clock: nat -> int, k: nat)
    requires UniqueIds(t)
    ensures InOrder(Drain(t, clock, k))
    decreases |PullableIds(t)|
  {
    if FindNextTask(t).None? {
    } else {
      var n, after := FindNextTask(t).value, Start(t, None, clock(k)).0;
      StartTakesOne(t, clock(k));
      var rest := Drain(after, clock, k + 1);
      DrainIsInOrder(after, clock, k + 1);
      forall m | m in rest ensures m.id != n.id && NotAfter(n, m) {
        HandedArePullable(after, clock, k + 1, m);
        LeftComesLater(t, clock(k), m);
      }
    }
  }

  lemma IdsInFront(n: Node, rest: seq<Node>)
    ensures IdSet([n] + rest) == {n.id} + IdSet(rest)
  {
    assert n in [n] + rest;
    assert forall m | m in rest :: m in [n] + rest;
  }

  lemma {:induction false} DrainTakesAll(t: Table, clock: nat -> int, k: nat)
    requires UniqueIds(t)
    ensures |Drain(t, clock, k)| == |PullableIds(t)| && IdSet(Drain(t, clock, k)) == PullableIds(t)
    decreases |PullableIds(t)|
  {
    if FindNextTask(t).None? {
      FindNextTaskIsLeast(t);
      assert PullableIds(t) == {};
    } else {
      var after := Start(t, None, clock(k)).0;
      StartTakesOne(t, clock(k));
      DrainTakesAll(after, clock, k + 1);
      IdsInFront(FindNextTask(t).value, Drain(after, clock, k + 1));
    }
  }

  /**
   Consecutive starts hand out every backlog task of the table, each once, in non-decreasing order of
   priority and age, and report none left after exactly that many calls.
   */
  lemma StartsDrainTheBacklog(t: Table, clock: nat -> int, k: nat)
    requires UniqueIds(t)
    ensures var handed := Drain(t, clock, k);
            && |handed| == |PullableIds(t)| && IdSet(handed) == PullableIds(t)
            && InOrder(handed) && forall n | n in handed :: n in t && Pullable(n)
  {
    DrainTakesAll(t, clock, k);
    DrainIsInOrder(t, clock, k);
    forall n | n in Drain(t, clock, k) ensures n in t && Pullable(n) { HandedArePullable(t, clock, k, n); }
  }

  // ---------------------------------------------------------------------------
  // Finishing
  // ---------------------------------------------------------------------------

  lemma {:induction false} AllDoneMembers(nodes: seq<Node>, self: string)
    ensures AllDone(nodes, self) <==> forall n | n in nodes :: n.status == "done" || n.id == self
  {
    if nodes == [] {
    } else {
      assert nodes == [nodes[0]] + nodes[1..];
      AllDoneMembers(nodes[1..], self);
    }
  }

  lemma FinishedRows(t: Table, id: string, now: int)
    ensures forall n | n in SetStatus(t, id, "done", now) && n.id == id :: n.status == "done"
  {
    SetStatusAt(t, id, "done", now);
    var after := SetStatus(t, id, "done", now);
    forall n | n in after && n.id == id ensures n.status == "done" {
      var i :| 0 <= i < |after| && after[i] == n;
    }
  }

  /**
   Finishing either leaves the table as it is or sets exactly one row to done: one with acceptance
   criteria, a description, and status in progress or backlog. It announces the promotion of the
   parent exactly when every child of that parent is then done. Test files play no part.
   */
  lemma FinishIsExact(t: Table, nodeId: string, testFiles: seq<string>, now: int)
    requires UniqueIds(t)
    ensures var (after, r) := Finish(t, nodeId, testFiles, now);
            && (!r.Finished? ==> after == t)
            && (r.Finished? <==>
                  exists n :: n in t && n.id == nodeId && Qualifies(n))
            && (r.Finished? ==>
                  && |after| == |t|
                  && (forall i | 0 <= i < |t| ::
                        after[i] == if t[i].id == nodeId then t[i].(status := "done", updatedAt := now) else t[i])
                  && (forall n | n in t && n.id == nodeId ::
                        r.promotion.Some? <==>
                          && NonEmpty(n.parentId)
                          && forall m | m in after && m.parentId == n.parentId :: m.status == "done"))
            && Finish(t, nodeId, [], now).0 == after
  {
    FindIsExact(t, nodeId);
    var (after, r) := Finish(t, nodeId, testFiles, now);
    if Find(t, nodeId).Some? {
      var node := Find(t, nodeId).value;
      assert forall n | n in t && n.id == nodeId :: n == node;
      if r.Finished? {
        SetStatusAt(t, nodeId, "done", now);
        FinishedRows(t, nodeId, now);
        if NonEmpty(node.parentId) {
          ChildrenMembers(after, node.parentId.value);
          AllDoneMembers(Children(after, node.parentId.value), nodeId);
        }
      }
    }
  }
}
