/**
 What each reading tool of the MCP bridge shows, told by rows and columns of the table
 (packages/mcp-server/src/tool-delegates.ts:209-379, packages/mcp-server/src/store.ts:64-100).
 */
module BridgeViews {
  import opened Prelude
  import opened BridgeStore
  import opened BridgeReads

  /** The rows that are wanted, once each, in order of age, or of priority before age. */
  ghost predicate Selects(t: Table, rows: seq<Node>, wanted: Node -> bool, byPriority: bool) {
    && (forall n :: n in rows <==> n in t && wanted(n))
    && forall i, j | 0 <= i < j < |rows| ::
         && rows[i].id != rows[j].id
         && (byPriority ==> rows[i].priority <= rows[j].priority)
         && (!byPriority || rows[i].priority == rows[j].priority ==> rows[i].createdAt <= rows[j].createdAt)
  }

  // ---------------------------------------------------------------------------
  // From sorted looks to rows
  // ---------------------------------------------------------------------------

  ghost predicate DistinctLooks(looks: seq<Look>) {
    forall i, j | 0 <= i < j < |looks| :: looks[i].id != looks[j].id
  }

  lemma {:induction false} KeepIsDistinct(looks: seq<Look>, test: Look -> bool)
    requires DistinctLooks(looks)
    ensures DistinctLooks(Keep(looks, test))
  {
    if looks == [] {
    } else {
      KeepIsDistinct(looks[1..], test);
      KeepMembers(looks[1..], test);
      var rest := Keep(looks[1..], test);
      forall i | 0 <= i < |rest| ensures rest[i].id != looks[0].id { assert rest[i] in looks[1..]; }
    }
  }

  lemma {:induction false} OnlyOnce(looks: seq<Look>, l: Look)
    requires DistinctLooks(looks)
    ensures multiset(looks)[l] <= 1
  {
    if looks == [] {
    } else {
      assert looks == [looks[0]] + looks[1..];
      OnlyOnce(looks[1..], l);
      assert forall k | 0 <= k < |looks[1..]| :: looks[1..][k] != looks[0];
    }
  }

  lemma SameMembersOnce(a: seq<Look>, b: seq<Look>)
    requires multiset(a) == multiset(b) && DistinctLooks(b)
    ensures DistinctLooks(a)
  {
    forall i, j | 0 <= i < j < |a| ensures a[i].id != a[j].id {
      assert a[i] in multiset(b) && a[j] in multiset(b);
      if a[i] == a[j] {
        assert a == a[..i] + [a[i]] + a[i + 1..j] + [a[j]] + a[j + 1..];
        assert multiset(b)[a[i]] >= 2;
        OnlyOnce(b, a[i]);
      }
    }
  }

  lemma {:induction false} KeepSnoc(looks: seq<Look>, l: Look, test: Look -> bool)
    ensures Keep(looks + [l], test) == Keep(looks, test) + if test(l) then [l] else []
  {
    if looks == [] {
      assert [l][1..] == [];
    } else {
      var head, tail := if test(looks[0]) then [looks[0]] else [], if test(l) then [l] else [];
      assert (looks + [l])[1..] == looks[1..] + [l] && (looks + [l])[0] == looks[0];
      KeepSnoc(looks[1..], l, test);
      assert head + (Keep(looks[1..], test) + tail) == (head + Keep(looks[1..], test)) + tail;
    }
  }

  lemma {:induction false} RowsBehind(t: Table, looks: seq<Look>) returns (rows: seq<Node>)
    requires forall l | l in looks :: l in Looks(t)
    ensures |rows| == |looks| && forall k | 0 <= k < |looks| :: rows[k] in t && LookOf(rows[k]) == looks[k]
  {
    if looks == [] {
      rows := [];
    } else {
      LooksAt(t);
      assert looks[0] in Looks(t);
      var i :| 0 <= i < |t| && Looks(t)[i] == looks[0];
      var rest := RowsBehind(t, looks[1..]);
      rows := [t[i]] + rest;
    }
  }

  lemma SortedSelection(t: Table, test: Look -> bool, byPriority: bool)
    requires UniqueIds(t)
    ensures var sorted := Sort(Keep(Looks(t), test), byPriority);
            && (forall l :: l in sorted <==> l in Looks(t) && test(l))
            && DistinctLooks(sorted) && Ordered(sorted, byPriority)
  {
    LooksAt(t);
    var kept := Keep(Looks(t), test);
    KeepIsDistinct(Looks(t), test);
    SortIsOrdered(kept, byPriority);
    SameMembersOnce(Sort(kept, byPriority), kept);
    forall l ensures l in Sort(kept, byPriority) <==> l in Looks(t) && test(l) {
      KeepMembers(Looks(t), test);
      SortMembers(kept, byPriority, l);
    }
  }

  /** The rows behind the sorted selection of a query. */
  lemma RowsSelected(t: Table, test: Look -> bool, wanted: Node -> bool, byPriority: bool) returns (rows: seq<Node>)
    requires UniqueIds(t) && forall n | n in t :: wanted(n) <==> test(LookOf(n))
    ensures Selects(t, rows, wanted, byPriority)
    ensures var sorted := Sort(Keep(Looks(t), test), byPriority);
            |rows| == |sorted| && forall k | 0 <= k < |rows| :: LookOf(rows[k]) == sorted[k]
  {
    var sorted := Sort(Keep(Looks(t), test), byPriority);
    SortedSelection(t, test, byPriority);
    rows := RowsBehind(t, sorted);
    LooksAt(t);
    forall n | n in t && wanted(n) ensures n in rows {
      var i :| 0 <= i < |t| && t[i] == n;
      assert Looks(t)[i] == LookOf(n);
      assert LookOf(n) in sorted;
      var k :| 0 <= k < |sorted| && sorted[k] == LookOf(n);
      assert rows[k].id == n.id;
    }
    forall n | n in rows ensures n in t && wanted(n) {
      var k :| 0 <= k < |rows| && rows[k] == n;
      assert sorted[k] in sorted;
    }
    forall i, j | 0 <= i < j < |rows|
      ensures rows[i].id != rows[j].id && Precedes(LookOf(rows[i]), LookOf(rows[j]), byPriority)
    {
      assert sorted[i].id != sorted[j].id && Precedes(sorted[i], sorted[j], byPriority);
    }
  }

  // ---------------------------------------------------------------------------
  // Lists
  // ---------------------------------------------------------------------------

  /** Lines for exactly the rows wanted, in their order. */
  ghost predicate Shows<L(!new)>(t: Table, wanted: Node -> bool, byPriority: bool, line: Node -> L, lines: seq<L>) {
    exists rows ::
      && Selects(t, rows, wanted, byPriority) && |lines| == |rows|
      && forall k | 0 <= k < |rows| :: lines[k] == line(rows[k])
  }

  lemma SelectionIsShown<L(!new)>(t: Table, test: Look -> bool, wanted: Node -> bool, byPriority: bool,
                            line: Look -> L, column: Node -> L)
    requires UniqueIds(t) && forall n | n in t :: wanted(n) <==> test(LookOf(n))
    requires forall n: Node :: line(LookOf(n)) == column(n)
    ensures Shows(t, wanted, byPriority, column, Lines(Sort(Keep(Looks(t), test), byPriority), line))
  {
    var rows := RowsSelected(t, test, wanted, byPriority);
  }

  /** The columns that a listing prints. */
  function ListColumns(n: Node): ListLine {
    ListLine(n.id, n.kind, n.status, n.title, n.priority)
  }

  function ChildColumns(n: Node): ChildLine {
    ChildLine(n.id, n.kind, n.status, n.title)
  }

  function BacklogColumns(n: Node): BacklogLine {
    BacklogLine(n.id, n.priority, n.title, n.xpSize)
  }

  ghost predicate Filtered(kind: Option<string>, status: Option<string>, n: Node) {
    && (kind == None || kind == Some("") || kind == Some(n.kind))
    && (status == None || status == Some("") || status == Some(n.status))
  }

  /**
   A listing with a parent shows that parent's children, by age, whatever else is asked. Without one it
   shows the rows of the kind and the status asked for; by priority and age when only a status is given,
   else by age.
   */
  lemma ListingIsExact(t: Table, edges: seq<Edge>, parent: Option<string>, kind: Option<string>, status: Option<string>)
    requires Keyed(t)
    ensures var view := Answered(Looks(t), edges, ListNodes(parent, kind, status));
            var plain := parent == None || parent == Some("");
            var byStatus := (kind == None || kind == Some("")) && status != None && status != Some("");
            && view.Listing?
            && (!plain ==> Shows(t, (n: Node) => n.parentId == parent, false, ListColumns, view.lines))
            && (plain ==> Shows(t, (n: Node) => Filtered(kind, status, n), byStatus, ListColumns, view.lines))
  {
    var q := ListNodes(parent, kind, status);
    var test := (l: Look) => Wanted(q, l);
    if parent == None || parent == Some("") {
      SelectionIsShown(t, test, (n: Node) => Filtered(kind, status, n), SortsByPriority(q), ListLineOf, ListColumns);
    } else {
      SelectionIsShown(t, test, (n: Node) => n.parentId == parent, SortsByPriority(q), ListLineOf, ListColumns);
    }
  }

  /** The children of a row, by age, and the backlog, by priority and age. */
  lemma ContextListsAreExact(t: Table, edges: seq<Edge>, id: string, any: Option<string>)
    requires Keyed(t)
    ensures var view := Answered(Looks(t), edges, Context("children", Some(id)));
            if id == "" then view == NodeIdRequired
            else && view.ChildList?
                 && Shows(t, (n: Node) => n.parentId == Some(id), false, ChildColumns, view.children)
    ensures Answered(Looks(t), edges, Context("children", None)) == NodeIdRequired
    ensures var view := Answered(Looks(t), edges, Context("backlog", any));
            view.Backlog? && Shows(t, (n: Node) => n.status == "backlog", true, BacklogColumns, view.tasks)
  {
    assert "children"[0] == 'c' && "backlog"[0] == 'b' && "summary"[0] == 's' && "node"[0] == 'n';
    if id != "" {
      SelectionIsShown(t, (l: Look) => l.parentId == Some(id), (n: Node) => n.parentId == Some(id), false,
                       ChildLineOf, ChildColumns);
    }
    SelectionIsShown(t, (l: Look) => l.status == "backlog", (n: Node) => n.status == "backlog", true,
                     (l: Look) => BacklogLine(l.id, l.priority, l.title, l.xpSize), BacklogColumns);
  }

  // ---------------------------------------------------------------------------
  // Cards, counts, blockers
  // ---------------------------------------------------------------------------

  lemma {:induction false} CardInRow(t: Table, id: string, i: nat)
    requires UniqueIds(t) && i < |t| && t[i].id == id
    ensures CardIn(Looks(t), id) == CardOfRow(LookOf(t[i]))
  {
    assert Looks(t)[1..] == Looks(t[1..]);
    if i > 0 { CardInRow(t[1..], id, i - 1); }
  }

  lemma {:induction false} NoCardWithoutRow(t: Table, id: string)
    requires forall n | n in t :: n.id != id
    ensures CardIn(Looks(t), id) == NoSuchNode(id)
  {
    if t == [] {
    } else {
      assert t[0] in t && Looks(t)[1..] == Looks(t[1..]);
      assert forall n | n in t[1..] :: n in t;
      NoCardWithoutRow(t[1..], id);
    }
  }

  /** The three ways to ask for one row: its columns and the number of its criteria, or that there is none. */
  lemma CardsAreExact(t: Table, edges: seq<Edge>, id: string)
    requires UniqueIds(t)
    ensures forall q | q in {GetNode(Some(id)), Analyze("status", Some(id)), Context("node", Some(id))} ::
              var view := Answered(Looks(t), edges, q);
              && (id == "" ==> view == NodeIdRequired)
              && (id != "" && (forall n | n in t :: n.id != id) ==> view == NoSuchNode(id))
              && (forall i | 0 <= i < |t| && t[i].id == id && id != "" ::
                    var n := t[i];
                    view == Card(id, n.kind, n.title, n.status, n.priority, n.xpSize,
                                 match n.acceptance case Some(criteria) => |criteria| case None => 0, n.tags))
    ensures forall q | q in {GetNode(None), Analyze("status", None), Context("node", None)} ::
              Answered(Looks(t), edges, q) == NodeIdRequired
  {
    assert "status"[2] == 'a' && "stats"[4] == 's' && "status"[4] == 'u';
    assert "summary"[0] == 's' && "node"[0] == 'n';
    if forall n | n in t :: n.id != id { NoCardWithoutRow(t, id); }
    forall i | 0 <= i < |t| && t[i].id == id ensures CardIn(Looks(t), id) == CardOfRow(LookOf(t[i])) {
      CardInRow(t, id, i);
    }
  }

  /** The rows whose column has this value. */
  ghost function PlacesWith(t: Table, column: Node -> string, v: string): set<nat> {
    set i: nat | i < |t| && column(t[i]) == v
  }

  ghost predicate TalliesAt(t: Table, column: Node -> string, counts: map<string, nat>, v: string) {
    if v in counts then counts[v] == |PlacesWith(t, column, v)| && counts[v] > 0 else PlacesWith(t, column, v) == {}
  }

  /** The values of a column, each with the number of its rows. */
  ghost predicate Tallies(t: Table, column: Node -> string, counts: map<string, nat>) {
    forall v :: TalliesAt(t, column, counts, v)
  }

  function OneMore(counts: map<string, nat>, v: string): map<string, nat> {
    counts[v := (if v in counts then counts[v] else 0) + 1]
  }

  lemma OneMoreCommutes(counts: map<string, nat>, v: string, w: string)
    ensures OneMore(OneMore(counts, v), w) == OneMore(OneMore(counts, w), v)
  {
  }

  lemma {:induction false} CountBySnoc(looks: seq<Look>, l: Look, key: Look -> string)
    ensures CountBy(looks + [l], key) == OneMore(CountBy(looks, key), key(l))
  {
    if looks == [] {
      assert [l][1..] == [];
    } else {
      assert (looks + [l])[1..] == looks[1..] + [l];
      CountBySnoc(looks[1..], l, key);
      OneMoreCommutes(CountBy(looks[1..], key), key(l), key(looks[0]));
    }
  }

  lemma PlacesSnoc(t: Table, column: Node -> string, v: string)
    requires t != []
    ensures var front := PlacesWith(t[..|t| - 1], column, v);
            && (column(t[|t| - 1]) == v ==> |PlacesWith(t, column, v)| == |front| + 1 && PlacesWith(t, column, v) != {})
            && (column(t[|t| - 1]) != v ==> PlacesWith(t, column, v) == front)
  {
    var last := |t| - 1;
    assert PlacesWith(t, column, v) - {last} == PlacesWith(t[..last], column, v);
  }

  lemma TallyOfOneMore(t: Table, column: Node -> string, counts: map<string, nat>, v: string)
    requires t != [] && TalliesAt(t[..|t| - 1], column, counts, v)
    ensures TalliesAt(t, column, OneMore(counts, column(t[|t| - 1])), v)
  {
    PlacesSnoc(t, column, v);
  }

  lemma {:induction false} CountsTally(t: Table, key: Look -> string, column: Node -> string)
    requires forall n: Node :: key(LookOf(n)) == column(n)
    ensures Tallies(t, column, CountBy(Looks(t), key))
  {
    if t == [] {
      forall v ensures TalliesAt(t, column, map[], v) {
      }
    } else {
      var last := |t| - 1;
      CountsTally(t[..last], key, column);
      LooksAt(t);
      LooksAt(t[..last]);
      assert Looks(t) == Looks(t[..last]) + [LookOf(t[last])];
      CountBySnoc(Looks(t[..last]), LookOf(t[last]), key);
      forall v ensures TalliesAt(t, column, CountBy(Looks(t), key), v) {
        TallyOfOneMore(t, column, CountBy(Looks(t[..last]), key), v);
      }
    }
  }

  ghost predicate CountsRows(t: Table, view: View) {
    && view.Stats?
    && Tallies(t, (n: Node) => n.kind, view.byKind) && Tallies(t, (n: Node) => n.status, view.byStatus)
  }

  /** The statistics count the rows of each kind and of each status that occurs. */
  lemma StatsAreExact(t: Table, edges: seq<Edge>, any: Option<string>)
    ensures CountsRows(t, Answered(Looks(t), edges, Analyze("stats", any)))
  {
    CountsTally(t, (l: Look) => l.kind, (n: Node) => n.kind);
    CountsTally(t, (l: Look) => l.status, (n: Node) => n.status);
  }

  /** Places in increasing order of all edges that say `depends_on`. */
  ghost predicate DependencyPlaces(edges: seq<Edge>, places: seq<nat>) {
    && (forall i, j | 0 <= i < j < |places| :: places[i] < places[j])
    && forall k: nat :: k in places <==> k < |edges| && edges[k].relation == "depends_on"
  }

  lemma {:induction false} BlockersConcat(a: seq<Edge>, b: seq<Edge>)
    ensures BlockersOf(a + b) == BlockersOf(a) + BlockersOf(b)
  {
    if a == [] {
      assert a + b == b;
    } else {
      assert (a + b)[1..] == a[1..] + b;
      BlockersConcat(a[1..], b);
    }
  }

  lemma {:induction false} BlockersHavePlaces(edges: seq<Edge>) returns (places: seq<nat>)
    ensures DependencyPlaces(edges, places) && |BlockersOf(edges)| == |places|
    ensures forall k | 0 <= k < |places| ::
              places[k] < |edges| && BlockersOf(edges)[k] == (edges[places[k]].source, edges[places[k]].target)
  {
    if edges == [] {
      places := [];
    } else {
      var last := |edges| - 1;
      var before := BlockersHavePlaces(edges[..last]);
      BlockersConcat(edges[..last], [edges[last]]);
      assert edges == edges[..last] + [edges[last]];
      places := before + if edges[last].relation == "depends_on" then [last] else [];
      assert forall i | 0 <= i < |before| :: before[i] in before;
      forall k: nat ensures k in places <==> k < |edges| && edges[k].relation == "depends_on" {
        assert k < last ==> edges[..last][k] == edges[k];
      }
    }
  }

  /** The blockers are the `depends_on` edges in their order, each from its source to its target. */
  lemma BlockersAreExact(looks: seq<Look>, edges: seq<Edge>, any: Option<string>)
    ensures var view := Answered(looks, edges, Analyze("blockers", any));
            exists places ::
              && DependencyPlaces(edges, places) && view.Blockers? && |view.edges| == |places|
              && forall k | 0 <= k < |places| ::
                   places[k] < |edges| && view.edges[k] == (edges[places[k]].source, edges[places[k]].target)
  {
    assert "blockers"[0] == 'b' && "stats"[0] == "status"[0] == 's';
    var places := BlockersHavePlaces(edges);
  }

  // ---------------------------------------------------------------------------
  // Structure and summary
  // ---------------------------------------------------------------------------

  /** Marks, titles and ids of at most the first ten rows. */
  ghost predicate FirstTen(rows: seq<Node>, first: seq<(bool, string, string)>) {
    && |first| <= 10 && |first| <= |rows| && (|first| < 10 ==> |first| == |rows|)
    && forall k | 0 <= k < |first| :: first[k] == (rows[k].status == "done", rows[k].title, rows[k].id)
  }

  /** The line of an epic: its title, its children by age, how many there are and how many of them are done. */
  ghost predicate EpicShown(t: Table, epic: Node, line: EpicLine) {
    exists rows ::
      && Selects(t, rows, (n: Node) => n.parentId == Some(epic.id), false)
      && line.title == epic.title && line.total == |rows| && FirstTen(rows, line.first)
      && line.done == |PlacesWith(rows, (n: Node) => n.status, "done")|
  }

  ghost predicate StructureShown(t: Table, view: View) {
    exists epics ::
      && Selects(t, epics, (n: Node) => n.kind == "epic", false)
      && view.Structure? && |view.epics| == |epics|
      && forall k | 0 <= k < |epics| :: EpicShown(t, epics[k], view.epics[k])
  }

  lemma {:induction false} DoneAreCounted(rows: seq<Node>, looks: seq<Look>)
    requires |looks| == |rows| && forall k | 0 <= k < |rows| :: looks[k] == LookOf(rows[k])
    ensures |Keep(looks, (l: Look) => l.status == "done")| == |PlacesWith(rows, (n: Node) => n.status, "done")|
  {
    var column := (n: Node) => n.status;
    if rows == [] {
      assert PlacesWith(rows, column, "done") == {};
    } else {
      var last := |rows| - 1;
      DoneAreCounted(rows[..last], looks[..last]);
      PlacesSnoc(rows, column, "done");
      KeepSnoc(looks[..last], looks[last], (l: Look) => l.status == "done");
      assert looks == looks[..last] + [looks[last]];
    }
  }

  lemma EpicIsShown(t: Table, epic: Node)
    requires Keyed(t) && epic.id != ""
    ensures EpicShown(t, epic, EpicLineOf(Looks(t), LookOf(epic)))
  {
    var parent := Some(epic.id);
    var rows := RowsSelected(t, (l: Look) => l.parentId == parent, (n: Node) => n.parentId == parent, false);
    DoneAreCounted(rows, ChildrenOf(Looks(t), epic.id));
  }

  lemma {:induction false} EpicLinesAt(looks: seq<Look>, epics: seq<Look>)
    ensures |EpicLines(looks, epics)| == |epics|
    ensures forall k | 0 <= k < |epics| :: EpicLines(looks, epics)[k] == EpicLineOf(looks, epics[k])
  {
    if epics == [] {
    } else {
      EpicLinesAt(looks, epics[..|epics| - 1]);
    }
  }

  /** The structure shows every epic by age, and under each its children by age. */
  lemma StructureIsExact(t: Table, edges: seq<Edge>, any: Option<string>)
    requires Keyed(t)
    ensures StructureShown(t, Answered(Looks(t), edges, Analyze("structure", any)))
  {
    assert "structure"[2] == 'r' && "stats"[2] == "status"[2] == 'a' && "blockers"[0] == 'b';
    var epics := RowsSelected(t, (l: Look) => l.kind == "epic", (n: Node) => n.kind == "epic", false);
    EpicLinesAt(Looks(t), Epics(Looks(t)));
    forall k | 0 <= k < |epics| ensures EpicShown(t, epics[k], EpicLineOf(Looks(t), LookOf(epics[k]))) {
      assert epics[k] in epics;
      EpicIsShown(t, epics[k]);
    }
  }

  /** The full analysis and the snapshot are the statistics, the structure and the blockers together. */
  lemma FullIsAllThree(looks: seq<Look>, edges: seq<Edge>, any: Option<string>)
    ensures Answered(looks, edges, Snapshot)
         == Whole(Answered(looks, edges, Analyze("stats", None)), Answered(looks, edges, Analyze("structure", None)),
                  Answered(looks, edges, Analyze("blockers", None)))
    ensures Answered(looks, edges, Analyze("full", any)) == Answered(looks, edges, Snapshot)
  {
    assert "full"[0] == 'f' && "structure"[2] == 'r' && "stats"[2] == "status"[2] == 'a' && "blockers"[0] == 'b';
  }

  /** The summary is the statistics and the first backlog task by priority and age, if there is one. */
  lemma SummaryIsExact(t: Table, edges: seq<Edge>, any: Option<string>)
    ensures var view := Answered(Looks(t), edges, Context("summary", any));
            && view.Summary? && CountsRows(t, view.stats)
            && (view.next.None? <==> forall n | n in t :: !(n.kind in {"task", "subtask"} && n.status == "backlog"))
            && (view.next.Some? ==>
                  exists n ::
                    && n in t && n.kind in {"task", "subtask"} && n.status == "backlog"
                    && view.next.value == ChildLine(n.id, n.kind, n.status, n.title)
                    && forall m | m in t && m.kind in {"task", "subtask"} && m.status == "backlog" ::
                         n.priority < m.priority || (n.priority == m.priority && n.createdAt <= m.createdAt))
  {
    StatsAreExact(t, edges, any);
    NextLookIsNextTask(t);
    FindNextTaskIsLeast(t);
  }
}
