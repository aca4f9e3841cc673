/**
 The tools of the MCP bridge that only read (packages/mcp-server/src/tool-delegates.ts:209-379), without the
 assembler adapter. What a tool prints is given as the data its text is made of.
 */
module BridgeReads {
  import opened Prelude
  import opened BridgeStore

  /** All that a reading tool ever looks at in a row; an empty parent pointer counts as none. */
  datatype Look = Look(
    id: string, kind: string, title: string, status: string, priority: int, xpSize: Option<string>,
    criteria: nat, tags: Option<seq<string>>, parentId: Option<string>, createdAt: int)

  function LookOf(n: Node): Look {
    Look(n.id, n.kind, n.title, n.status, n.priority, n.xpSize, |OrElse(n.acceptance, [])|, n.tags,
         if NonEmpty(n.parentId) then n.parentId else None, n.createdAt)
  }

  function Looks(t: Table): seq<Look> {
    if t == [] then [] else [LookOf(t[0])] + Looks(t[1..])
  }

  lemma {:induction false} LooksAt(t: Table)
    ensures |Looks(t)| == |t| && forall i | 0 <= i < |t| :: Looks(t)[i] == LookOf(t[i])
  {
    if t == [] {
    } else {
      LooksAt(t[1..]);
    }
  }

  datatype Edge = Edge(source: string, target: string, relation: string)

  /** A call of a reading tool. */
  datatype Query =
    | Analyze(mode: string, nodeId: Option<string>)
    | Context(action: string, nodeId: Option<string>)
    | ListNodes(parentId: Option<string>, kind: Option<string>, status: Option<string>)
    | GetNode(nodeId: Option<string>)
    | Snapshot
    | UnknownTool(name: string)

  datatype EpicLine = EpicLine(title: string, done: nat, total: nat, first: seq<(bool, string, string)>)
  datatype ListLine = ListLine(id: string, kind: string, status: string, title: string, priority: int)
  datatype ChildLine = ChildLine(id: string, kind: string, status: string, title: string)
  datatype BacklogLine = BacklogLine(id: string, priority: int, title: string, xpSize: Option<string>)

  datatype View =
    | Stats(byKind: map<string, nat>, byStatus: map<string, nat>)
    | Card(id: string, kind: string, title: string, status: string, priority: int, xpSize: Option<string>,
           criteria: nat, tags: Option<seq<string>>)
    | Blockers(edges: seq<(string, string)>)
    | Structure(epics: seq<EpicLine>)
    | Whole(stats: View, structure: View, blockers: View)
    | Summary(stats: View, next: Option<ChildLine>)
    | Listing(lines: seq<ListLine>)
    | ChildList(children: seq<ChildLine>)
    | Backlog(tasks: seq<BacklogLine>)
    | NoSuchNode(id: string)
    | NodeIdRequired
    | UnknownRequest(name: string)

  // ---------------------------------------------------------------------------
  // Selecting and sorting rows
  // ---------------------------------------------------------------------------

  function Keep(looks: seq<Look>, test: Look -> bool): seq<Look> {
    if looks == [] then []
    else (if test(looks[0]) then [looks[0]] else []) + Keep(looks[1..], test)
  }

  /** The sort keys of the queries: age alone, or priority before age. */
  predicate Precedes(a: Look, b: Look, byPriority: bool) {
    if byPriority && a.priority != b.priority then a.priority < b.priority else a.createdAt <= b.createdAt
  }

  function Insert(x: Look, sorted: seq<Look>, byPriority: bool): seq<Look> {
    if sorted == [] || Precedes(x, sorted[0], byPriority) then [x] + sorted
    else [sorted[0]] + Insert(x, sorted[1..], byPriority)
  }

  function Sort(looks: seq<Look>, byPriority: bool): seq<Look> {
    if looks == [] then [] else Insert(looks[0], Sort(looks[1..], byPriority), byPriority)
  }

  ghost predicate Ordered(looks: seq<Look>, byPriority: bool) {
    forall i, j | 0 <= i < j < |looks| :: Precedes(looks[i], looks[j], byPriority)
  }

  lemma {:induction false} InsertKeepsRows(x: Look, sorted: seq<Look>, byPriority: bool)
    ensures multiset(Insert(x, sorted, byPriority)) == multiset{x} + multiset(sorted)
  {
    if sorted == [] || Precedes(x, sorted[0], byPriority) {
    } else {
      InsertKeepsRows(x, sorted[1..], byPriority);
      assert sorted == [sorted[0]] + sorted[1..];
    }
  }

  lemma PutFirst(x: Look, rest: seq<Look>, byPriority: bool)
    requires Ordered(rest, byPriority) && forall y | y in rest :: Precedes(x, y, byPriority)
    ensures Ordered([x] + rest, byPriority)
  {
  }

  lemma {:induction false} InsertIsOrdered(x: Look, sorted: seq<Look>, byPriority: bool)
    requires Ordered(sorted, byPriority)
    ensures Ordered(Insert(x, sorted, byPriority), byPriority)
  {
    if sorted == [] {
    } else if Precedes(x, sorted[0], byPriority) {
      PutFirst(x, sorted, byPriority);
    } else {
      var rest := Insert(x, sorted[1..], byPriority);
      InsertIsOrdered(x, sorted[1..], byPriority);
      InsertKeepsRows(x, sorted[1..], byPriority);
      forall y | y in rest ensures Precedes(sorted[0], y, byPriority) {
        assert y in multiset(rest);
      }
      PutFirst(sorted[0], rest, byPriority);
    }
  }

  lemma {:induction false} SortKeepsRows(looks: seq<Look>, byPriority: bool)
    ensures multiset(Sort(looks, byPriority)) == multiset(looks)
  {
    if looks == [] {
    } else {
      SortKeepsRows(looks[1..], byPriority);
      InsertKeepsRows(looks[0], Sort(looks[1..], byPriority), byPriority);
      assert looks == [looks[0]] + looks[1..];
    }
  }

  /** Sorting orders the rows and neither loses nor adds one. */
  lemma {:induction false} SortIsOrdered(looks: seq<Look>, byPriority: bool)
    ensures Ordered(Sort(looks, byPriority), byPriority)
    ensures multiset(Sort(looks, byPriority)) == multiset(looks)
  {
    SortKeepsRows(looks, byPriority);
    if looks == [] {
    } else {
      SortIsOrdered(looks[1..], byPriority);
      InsertIsOrdered(looks[0], Sort(looks[1..], byPriority), byPriority);
    }
  }

  lemma {:induction false} KeepMembers(looks: seq<Look>, test: Look -> bool)
    ensures forall l :: l in Keep(looks, test) <==> l in looks && test(l)
  {
    if looks == [] {
    } else {
      assert looks == [looks[0]] + looks[1..];
      KeepMembers(looks[1..], test);
    }
  }

  lemma SortMembers(looks: seq<Look>, byPriority: bool, l: Look)
    ensures l in Sort(looks, byPriority) <==> l in looks
  {
    SortKeepsRows(looks, byPriority);
    assert l in looks <==> l in multiset(looks);
    assert l in Sort(looks, byPriority) <==> l in multiset(Sort(looks, byPriority));
  }

  // ---------------------------------------------------------------------------
  // The handlers
  // ---------------------------------------------------------------------------

  function CountBy(looks: seq<Look>, key: Look -> string): map<string, nat> {
    if looks == [] then map[]
    else
      var rest := CountBy(looks[1..], key);
      rest[key(looks[0]) := (if key(looks[0]) in rest then rest[key(looks[0])] else 0) + 1]
  }

  function StatsOf(looks: seq<Look>): View {
    Stats(CountBy(looks, (l: Look) => l.kind), CountBy(looks, (l: Look) => l.status))
  }

  function CardOfRow(l: Look): View {
    Card(l.id, l.kind, l.title, l.status, l.priority, l.xpSize, l.criteria, l.tags)
  }

  function CardIn(looks: seq<Look>, id: string): View {
    if looks == [] then NoSuchNode(id)
    else if looks[0].id == id then CardOfRow(looks[0])
    else CardIn(looks[1..], id)
  }

  function CardOf(looks: seq<Look>, nodeId: Option<string>): View {
    if !NonEmpty(nodeId) then NodeIdRequired else CardIn(looks, nodeId.value)
  }

  function BlockersOf(edges: seq<Edge>): seq<(string, string)> {
    if edges == [] then []
    else (if edges[0].relation == "depends_on" then [(edges[0].source, edges[0].target)] else [])
         + BlockersOf(edges[1..])
  }

  function ListLineOf(l: Look): ListLine {
    ListLine(l.id, l.kind, l.status, l.title, l.priority)
  }

  function ChildLineOf(l: Look): ChildLine {
    ChildLine(l.id, l.kind, l.status, l.title)
  }

  function Lines<L>(looks: seq<Look>, line: Look -> L): seq<L> {
    seq(|looks|, i requires 0 <= i < |looks| => line(looks[i]))
  }

  function ChildrenOf(looks: seq<Look>, parent: string): seq<Look> {
    Sort(Keep(looks, (l: Look) => l.parentId == Some(parent)), false)
  }

  function EpicLineOf(looks: seq<Look>, epic: Look): EpicLine {
    var tasks := ChildrenOf(looks, epic.id);
    EpicLine(epic.title, |Keep(tasks, (l: Look) => l.status == "done")|, |tasks|,
             seq(if |tasks| < 10 then |tasks| else 10,
                 i requires 0 <= i < |tasks| => (tasks[i].status == "done", tasks[i].title, tasks[i].id)))
  }

  function EpicLines(looks: seq<Look>, epics: seq<Look>): seq<EpicLine> {
    if epics == [] then []
    else EpicLines(looks, epics[..|epics| - 1]) + [EpicLineOf(looks, epics[|epics| - 1])]
  }

  lemma OneMoreEpic(looks: seq<Look>, epics: seq<Look>, i: nat)
    requires i < |epics|
    ensures EpicLines(looks, epics[..i + 1]) == EpicLines(looks, epics[..i]) + [EpicLineOf(looks, epics[i])]
  {
    assert epics[..i + 1][..i] == epics[..i];
  }

  function Epics(looks: seq<Look>): seq<Look> {
    Sort(Keep(looks, (l: Look) => l.kind == "epic"), false)
  }

  function StructureOf(looks: seq<Look>): View {
    Structure(EpicLines(looks, Epics(looks)))
  }

  function AnalyzeView(looks: seq<Look>, edges: seq<Edge>, mode: string, nodeId: Option<string>): View {
    if mode == "stats" then StatsOf(looks)
    else if mode == "status" then CardOf(looks, nodeId)
    else if mode == "blockers" then Blockers(BlockersOf(edges))
    else if mode == "structure" then StructureOf(looks)
    else if mode == "full" then Whole(StatsOf(looks), StructureOf(looks), Blockers(BlockersOf(edges)))
    else UnknownRequest(mode)
  }

  predicate WaitsInBacklog(l: Look) {
    (l.kind == "task" || l.kind == "subtask") && l.status == "backlog"
  }

  function NextLook(looks: seq<Look>): Option<Look> {
    var tasks := Sort(Keep(looks, WaitsInBacklog), true);
    if tasks == [] then None else Some(tasks[0])
  }

  /** The query's first row is the row that a start without an id would take. */
  lemma {:induction false} NextLookIsNextTask(t: Table)
    ensures NextLook(Looks(t))
         == match FindNextTask(t)
            case None => None
            case Some(n) => Some(LookOf(n))
  {
    if t == [] {
    } else {
      NextLookIsNextTask(t[1..]);
      assert Looks(t)[1..] == Looks(t[1..]);
      var rest := Keep(Looks(t[1..]), WaitsInBacklog);
      assert ([LookOf(t[0])] + rest)[1..] == rest;
      assert [] + rest == rest;
    }
  }

  function ContextView(looks: seq<Look>, action: string, nodeId: Option<string>): View {
    if action == "summary" then
      var next := NextLook(looks);
      Summary(StatsOf(looks), if next.None? then None else Some(ChildLineOf(next.value)))
    else if action == "node" then CardOf(looks, nodeId)
    else if action == "children" then
      if NonEmpty(nodeId) then ChildList(Lines(ChildrenOf(looks, nodeId.value), ChildLineOf)) else NodeIdRequired
    else if action == "backlog" then
      Backlog(Lines(Sort(Keep(looks, (l: Look) => l.status == "backlog"), true),
                    (l: Look) => BacklogLine(l.id, l.priority, l.title, l.xpSize)))
    else UnknownRequest(action)
  }

  /** A parent filter displaces the other two. */
  predicate Wanted(q: Query, l: Look)
    requires q.ListNodes?
  {
    if NonEmpty(q.parentId) then l.parentId == q.parentId
    else (NonEmpty(q.kind) ==> l.kind == q.kind.value) && (NonEmpty(q.status) ==> l.status == q.status.value)
  }

  /** Only the plain status filter sorts by priority. */
  predicate SortsByPriority(q: Query)
    requires q.ListNodes?
  {
    !NonEmpty(q.parentId) && !NonEmpty(q.kind) && NonEmpty(q.status)
  }

  function ListedLooks(looks: seq<Look>, q: Query): seq<Look>
    requires q.ListNodes?
  {
    Sort(Keep(looks, (l: Look) => Wanted(q, l)), SortsByPriority(q))
  }

  /** What a reading tool answers. */
  function Answered(looks: seq<Look>, edges: seq<Edge>, q: Query): View {
    match q
    case Analyze(mode, nodeId) => AnalyzeView(looks, edges, mode, nodeId)
    case Context(action, nodeId) => ContextView(looks, action, nodeId)
    case ListNodes(_, _, _) => Listing(Lines(ListedLooks(looks, q), ListLineOf))
    case GetNode(nodeId) => CardOf(looks, nodeId)
    case Snapshot => AnalyzeView(looks, edges, "full", None)
    case UnknownTool(name) => UnknownRequest(name)
  }
}
