/**
 What each mutating tool of the MCP bridge does, told by the columns of the table
 (packages/mcp-server/src/tool-delegates.ts:94-207, packages/mcp-server/src/store.ts:100-207).
 */
module BridgeLaws {
  import opened Prelude
  import opened BridgeStore
  import opened BridgeReads
  import opened Bridge
  import opened BridgeViews

  /** The rows whose parent pointer is this id. */
  ghost function RowsUnder(t: Table, parent: string): set<nat> {
    set i: nat | i < |t| && t[i].parentId == Some(parent)
  }

  /** The row with this id has the status now; every other row is as it was. */
  ghost predicate OneRowSet(t: Table, id: string, status: string, now: int, after: Table) {
    && |after| == |t|
    && forall i | 0 <= i < |t| ::
         if t[i].id == id then after[i] == t[i].(status := status, updatedAt := now) else after[i] == t[i]
  }

  ghost predicate Absent(t: Table, id: string) {
    forall n | n in t :: n.id != id
  }

  lemma {:induction false} ChildrenConcat(a: Table, b: Table, parent: string)
    ensures Children(a + b, parent) == Children(a, parent) + Children(b, parent)
  {
    if a == [] {
      assert a + b == b;
    } else {
      var head := if a[0].parentId == Some(parent) then [a[0]] else [];
      assert (a + b)[1..] == a[1..] + b && (a + b)[0] == a[0];
      ChildrenConcat(a[1..], b, parent);
      assert head + (Children(a[1..], parent) + Children(b, parent))
          == (head + Children(a[1..], parent)) + Children(b, parent);
    }
  }

  lemma {:induction false} ChildrenAreCounted(t: Table, parent: string)
    ensures |Children(t, parent)| == |RowsUnder(t, parent)|
  {
    if t == [] {
      assert RowsUnder(t, parent) == {};
    } else {
      var last := |t| - 1;
      ChildrenAreCounted(t[..last], parent);
      ChildrenConcat(t[..last], [t[last]], parent);
      assert t == t[..last] + [t[last]];
      assert RowsUnder(t, parent) - {last} == RowsUnder(t[..last], parent);
    }
  }

  lemma ChildrenAfter(t: Table, id: string, status: string, now: int, parent: string)
    ensures |Children(SetStatus(t, id, status, now), parent)| == |RowsUnder(t, parent)|
  {
    SetStatusAt(t, id, status, now);
    ChildrenAreCounted(SetStatus(t, id, status, now), parent);
    assert RowsUnder(SetStatus(t, id, status, now), parent) == RowsUnder(t, parent);
  }

  lemma SetRow(t: Table, id: string, status: string, now: int)
    ensures OneRowSet(t, id, status, now, SetStatus(t, id, status, now))
  {
    SetStatusAt(t, id, status, now);
  }

  lemma FoundRow(t: Table, id: string, i: nat)
    requires UniqueIds(t) && i < |t| && t[i].id == id
    ensures Find(t, id) == Some(t[i])
  {
    FindIsExact(t, id);
    var n := Find(t, id).value;
    var j :| 0 <= j < |t| && t[j] == n;
  }

  // ---------------------------------------------------------------------------
  // Starting
  // ---------------------------------------------------------------------------

  /** The answer about a started row: its id, its criteria, and how many rows it is the parent of. */
  ghost predicate AnswersStart(t: Table, n: Node, r: Answer) {
    r == Started(n.id, match n.acceptance case Some(criteria) => criteria case None => [], |RowsUnder(t, n.id)|)
  }

  /** A start of a named row: no such row and nothing happens, or exactly that row is in progress. */
  lemma NamedStartIsExact(t: Table, edges: seq<Edge>, id: string, now: int)
    requires UniqueIds(t) && id != ""
    ensures var (after, r) := Dispatch(t, edges, StartTask(Some(id)), now);
            && (Absent(t, id) ==> r == NotFound && after == t)
            && (!Absent(t, id) ==> OneRowSet(t, id, "in_progress", now, after))
            && forall i | 0 <= i < |t| && t[i].id == id :: AnswersStart(t, t[i], r)
  {
    FindIsExact(t, id);
    SetStatusAt(t, id, "in_progress", now);
    ChildrenAfter(t, id, "in_progress", now, id);
    forall i | 0 <= i < |t| && t[i].id == id
      ensures AnswersStart(t, t[i], Dispatch(t, edges, StartTask(Some(id)), now).1)
    {
      FoundRow(t, id, i);
    }
  }

  ghost predicate InBacklog(n: Node) {
    n.kind in {"task", "subtask"} && n.status == "backlog"
  }

  /** The first backlog task by priority and age. */
  ghost predicate ComesFirst(t: Table, n: Node) {
    && n in t && InBacklog(n)
    && forall m | m in t && InBacklog(m) ::
         n.priority < m.priority || (n.priority == m.priority && n.createdAt <= m.createdAt)
  }

  lemma NextIsFirst(t: Table)
    ensures FindNextTask(t).None? <==> forall n | n in t :: !InBacklog(n)
    ensures FindNextTask(t).Some? ==> ComesFirst(t, FindNextTask(t).value)
  {
    FindNextTaskIsLeast(t);
    assert forall n :: InBacklog(n) <==> Pullable(n);
  }

  ghost predicate StartsFirst(t: Table, n: Node, now: int, after: Table, r: Answer) {
    ComesFirst(t, n) && OneRowSet(t, n.id, "in_progress", now, after) && AnswersStart(t, n, r)
  }

  lemma StartIsOfFirst(t: Table, now: int)
    requires FindNextTask(t).Some?
    ensures var (after, r) := Start(t, None, now); StartsFirst(t, FindNextTask(t).value, now, after, r)
  {
    var n := FindNextTask(t).value;
    NextIsFirst(t);
    SetRow(t, n.id, "in_progress", now);
    ChildrenAfter(t, n.id, "in_progress", now, n.id);
  }

  /** A start without an id, or with an empty one, takes the first backlog task by priority and age, if there is one. */
  lemma NextStartIsExact(t: Table, edges: seq<Edge>, wanted: Option<string>, now: int)
    requires wanted == None || wanted == Some("")
    ensures var (after, r) := Dispatch(t, edges, StartTask(wanted), now);
            if forall n | n in t :: !InBacklog(n) then r == NoneLeft && after == t
            else exists n :: StartsFirst(t, n, now, after, r)
  {
    assert Dispatch(t, edges, StartTask(wanted), now) == Start(t, None, now);
    NextIsFirst(t);
    if FindNextTask(t).Some? { StartIsOfFirst(t, now); }
  }

  /** What the first `calls` consecutive starts answer. */
  function StartAnswers(t: Table, clock: nat -> int, k: nat, calls: nat): seq<Answer>
    decreases calls
  {
    if calls == 0 then []
    else
      var (after, r) := Start(t, None, clock(k));
      [r] + StartAnswers(after, clock, k + 1, calls - 1)
  }

  lemma {:induction false} StartAnswersAll(t: Table, clock: nat -> int, k: nat, calls: nat)
    ensures |StartAnswers(t, clock, k, calls)| == calls
    decreases calls
  {
    if calls == 0 {
    } else {
      StartAnswersAll(Start(t, None, clock(k)).0, clock, k + 1, calls - 1);
    }
  }

  /** The answer of one start, told by what there is to hand out. */
  ghost predicate AnswersDrain(t: Table, r: Answer, handed: seq<Node>, i: nat) {
    if i < |handed| then AnswersStart(t, handed[i], r) else r == NoneLeft
  }

  lemma FirstAnswer(t: Table, now: int)
    ensures match FindNextTask(t)
            case None => Start(t, None, now) == (t, NoneLeft)
            case Some(n) => AnswersStart(t, n, Start(t, None, now).1)
  {
    if FindNextTask(t).Some? {
      var id := FindNextTask(t).value.id;
      ChildrenAfter(t, id, "in_progress", now, id);
    }
  }

  lemma LaterAnswer(t: Table, now: int, r: Answer, handed: seq<Node>, i: nat)
    requires AnswersDrain(Start(t, None, now).0, r, handed, i)
    ensures AnswersDrain(t, r, handed, i)
  {
    if i < |handed| && FindNextTask(t).Some? {
      var after := SetStatus(t, FindNextTask(t).value.id, "in_progress", now);
      SetStatusAt(t, FindNextTask(t).value.id, "in_progress", now);
      assert RowsUnder(after, handed[i].id) == RowsUnder(t, handed[i].id);
    }
  }

  lemma DrainStep(t: Table, clock: nat -> int, k: nat)
    requires UniqueIds(t)
    ensures UniqueIds(Start(t, None, clock(k)).0)
    ensures var rest := Drain(Start(t, None, clock(k)).0, clock, k + 1);
            Drain(t, clock, k) == match FindNextTask(t) case None => [] case Some(n) => [n] + rest
    ensures FindNextTask(t).None? ==> Drain(Start(t, None, clock(k)).0, clock, k + 1) == []
  {
    if FindNextTask(t).Some? { StartTakesOne(t, clock(k)); }
  }

  lemma {:induction false} AnswerOfStart(t: Table, clock: nat -> int, k: nat, calls: nat, i: nat)
    requires UniqueIds(t) && i < calls
    ensures |StartAnswers(t, clock, k, calls)| == calls
    ensures AnswersDrain(t, StartAnswers(t, clock, k, calls)[i], Drain(t, clock, k), i)
    decreases calls
  {
    StartAnswersAll(t, clock, k, calls);
    DrainStep(t, clock, k);
    if i == 0 {
      FirstAnswer(t, clock(k));
    } else {
      var after := Start(t, None, clock(k)).0;
      var rest, r := Drain(after, clock, k + 1), StartAnswers(after, clock, k + 1, calls - 1)[i - 1];
      AnswerOfStart(after, clock, k + 1, calls - 1, i - 1);
      assert StartAnswers(t, clock, k, calls)[i] == r;
      LaterAnswer(t, clock(k), r, rest, i - 1);
    }
  }

  /** Call by call: the drained tasks in their order, each with its criteria and children, and from then on nothing. */
  lemma StartsAnswerTheDrain(t: Table, clock: nat -> int, k: nat, calls: nat)
    requires UniqueIds(t)
    ensures |StartAnswers(t, clock, k, calls)| == calls
    ensures forall i | 0 <= i < calls ::
              AnswersDrain(t, StartAnswers(t, clock, k, calls)[i], Drain(t, clock, k), i)
  {
    StartAnswersAll(t, clock, k, calls);
    forall i | 0 <= i < calls
      ensures AnswersDrain(t, StartAnswers(t, clock, k, calls)[i], Drain(t, clock, k), i)
    {
      AnswerOfStart(t, clock, k, calls, i);
    }
  }

  // ---------------------------------------------------------------------------
  // Finishing
  // ---------------------------------------------------------------------------

  ghost predicate Given<T>(xs: Option<seq<T>>) {
    match xs
    case Some(x) => |x| > 0
    case None => false
  }

  /** A row may be finished: it has criteria and a description, and is in progress or in the backlog. */
  ghost predicate Finishable(n: Node) {
    Given(n.acceptance) && Given(n.description) && n.status in {"in_progress", "backlog"}
  }

  /** The parent whose children are all done once row `n` is, if there is one: the number of its children. */
  ghost function Promoted(t: Table, n: Node): Option<nat> {
    if Given(n.parentId) && forall m | m in t && m.parentId == n.parentId :: m.status == "done" || m.id == n.id
    then Some(|RowsUnder(t, n.parentId.value)|) else None
  }

  lemma FinishFailsIff(t: Table, edges: seq<Edge>, id: string, testFiles: seq<string>, now: int)
    requires UniqueIds(t)
    ensures var (after, r) := Dispatch(t, edges, FinishTask(id, testFiles), now);
            && (Absent(t, id) ==> r == NotFound && after == t)
            && forall i | 0 <= i < |t| && t[i].id == id && !Finishable(t[i]) ::
                 && after == t
                 && r == DodFailed(Given(t[i].acceptance), Given(t[i].description),
                                   t[i].status in {"in_progress", "backlog"}, |testFiles| > 0)
  {
    FindIsExact(t, id);
    forall i | 0 <= i < |t| && t[i].id == id ensures Find(t, id) == Some(t[i]) { FoundRow(t, id, i); }
  }

  lemma AllDoneIff(t: Table, id: string, now: int, parent: string)
    ensures AllDone(Children(SetStatus(t, id, "done", now), parent), id) <==>
            forall m | m in t && m.parentId == Some(parent) :: m.status == "done" || m.id == id
  {
    var after := SetStatus(t, id, "done", now);
    SetStatusAt(t, id, "done", now);
    ChildrenMembers(after, parent);
    AllDoneMembers(Children(after, parent), id);
    assert (forall m | m in t && m.parentId == Some(parent) :: m.status == "done" || m.id == id) <==>
           forall i | 0 <= i < |t| && t[i].parentId == Some(parent) :: t[i].status == "done" || t[i].id == id;
    assert (forall n | n in after && n.parentId == Some(parent) :: n.status == "done" || n.id == id) <==>
           forall i | 0 <= i < |t| && after[i].parentId == Some(parent) ::
             after[i].status == "done" || after[i].id == id;
  }

  lemma PromotionIsExact(t: Table, n: Node, now: int)
    ensures var parent := if NonEmpty(n.parentId) then n.parentId.value else "";
            var children := Children(SetStatus(t, n.id, "done", now), parent);
            Promoted(t, n) == if NonEmpty(n.parentId) && AllDone(children, n.id) then Some(|children|) else None
  {
    if NonEmpty(n.parentId) {
      AllDoneIff(t, n.id, now, n.parentId.value);
      ChildrenAfter(t, n.id, "done", now, n.parentId.value);
    }
  }

  /** A finishable row is done, it alone, and its parent is announced with its number of children when all are done. */
  lemma FinishSucceeds(t: Table, edges: seq<Edge>, id: string, testFiles: seq<string>, now: int, i: nat)
    requires UniqueIds(t) && i < |t| && t[i].id == id && Finishable(t[i])
    ensures var (after, r) := Dispatch(t, edges, FinishTask(id, testFiles), now);
            OneRowSet(t, id, "done", now, after) && r == Finished(id, Promoted(t, t[i]))
  {
    FoundRow(t, id, i);
    SetRow(t, id, "done", now);
    PromotionIsExact(t, t[i], now);
    assert Qualifies(t[i]);
  }

  // ---------------------------------------------------------------------------
  // Adding and rewriting
  // ---------------------------------------------------------------------------

  /**
   A new row is put last, in the backlog with priority 3 unless another is asked for, made and changed
   now, and reads back on its card with the columns it was given.
   */
  lemma AddReadsBack(t: Table, edges: seq<Edge>, id: string, kind: string, f: Fields, now: int)
    requires UniqueIds(t) && id != "" && Absent(t, id)
    ensures var (after, r) := Dispatch(t, edges, AddNode(id, kind, f), now);
            && r == Created(id) && |after| == |t| + 1 && after[..|t|] == t
            && after[|t|].description == f.description && after[|t|].parentId == f.parentId
            && after[|t|].acceptance == f.acceptance && after[|t|].createdAt == after[|t|].updatedAt == now
            && Answered(Looks(after), edges, GetNode(Some(id)))
               == Card(id, kind, match f.title case Some(title) => title case None => "", "backlog",
                       match f.priority case Some(priority) => priority case None => 3, f.xpSize,
                       match f.acceptance case Some(criteria) => |criteria| case None => 0, f.tags)
  {
    var after := Dispatch(t, edges, AddNode(id, kind, f), now).0;
    forall i | 0 <= i < |t| ensures t[i].id != id { assert t[i] in t; }
    assert UniqueIds(after) && after[|t|].id == id;
    CardsAreExact(after, edges, id);
  }

  /** A status is set on the row with that id and on no other; without such a row nothing happens. */
  lemma UpdateStatusIsExact(t: Table, edges: seq<Edge>, id: string, status: string, now: int)
    requires UniqueIds(t)
    ensures var (after, r) := Dispatch(t, edges, UpdateStatus(id, status), now);
            if Absent(t, id) then r == NotFound && after == t
            else r == Updated(id) && OneRowSet(t, id, status, now, after)
  {
    FindIsExact(t, id);
    SetStatusAt(t, id, status, now);
  }

  /** Each field that is given replaces the column; the rest of the row stays, and so does its status and its age. */
  ghost predicate Patched(n: Node, f: Fields, now: int, after: Node) {
    && after.id == n.id && after.kind == n.kind && after.status == n.status && after.createdAt == n.createdAt
    && after.updatedAt == now
    && after.title == (match f.title case Some(title) => title case None => n.title)
    && after.priority == (match f.priority case Some(priority) => priority case None => n.priority)
    && after.description == (match f.description case Some(_) => f.description case None => n.description)
    && after.acceptance == (match f.acceptance case Some(_) => f.acceptance case None => n.acceptance)
    && after.tags == (match f.tags case Some(_) => f.tags case None => n.tags)
    && after.xpSize == (match f.xpSize case Some(_) => f.xpSize case None => n.xpSize)
    && after.parentId == (match f.parentId case Some(_) => f.parentId case None => n.parentId)
  }

  /** The fields given are written to the row with that id; without a field or a row the table stays as it is. */
  lemma UpdateNodeIsExact(t: Table, edges: seq<Edge>, id: string, f: Fields, now: int)
    requires UniqueIds(t)
    ensures var (after, r) := Dispatch(t, edges, UpdateNode(id, f), now);
            && r == (if Absent(t, id) then NotFound else Updated(id))
            && (f == Fields(None, None, None, None, None, None, None) ==> after == t)
            && (f != Fields(None, None, None, None, None, None, None) ==>
                  && |after| == |t|
                  && forall i | 0 <= i < |t| ::
                       if t[i].id == id then Patched(t[i], f, now, after[i]) else after[i] == t[i])
  {
    FindIsExact(t, id);
    PatchRowAt(t, id, f, now);
    if f == NO_FIELDS { assert PatchRow(t, id, f, now) == t; }
  }
}
