/**
 The node table of the MCP bridge (packages/mcp-server/src/store.ts).
 */
module BridgeStore {
  import opened Prelude

  datatype Node = Node(
    id: string, kind: string, title: string, description: Option<string>, status: string, priority: int,
    xpSize: Option<string>, parentId: Option<string>, acceptance: Option<seq<string>>, tags: Option<seq<string>>,
    createdAt: int, updatedAt: int)

  /** The table rows in storage order. */
  type Table = seq<Node>

  ghost predicate UniqueIds(t: Table) {
    forall i, j | 0 <= i < j < |t| :: t[i].id != t[j].id
  }

  /** Ids are distinct and not empty. */
  ghost predicate Keyed(t: Table) {
    UniqueIds(t) && forall n | n in t :: n.id != ""
  }

  // ---------------------------------------------------------------------------
  // Queries and updates of the table
  // ---------------------------------------------------------------------------

  function Find(t: Table, id: string): Option<Node> {
    if t == [] then None else if t[0].id == id then Some(t[0]) else Find(t[1..], id)
  }

  lemma {:induction false} FindIsExact(t: Table, id: string)
    ensures Find(t, id).None? <==> forall i | 0 <= i < |t| :: t[i].id != id
    ensures Find(t, id).Some? ==> Find(t, id).value in t && Find(t, id).value.id == id
  {
    if t == [] {
    } else {
      FindIsExact(t[1..], id);
      assert t == [t[0]] + t[1..];
      if Find(t[1..], id).None? && t[0].id != id {
        assert forall i | 0 < i < |t| :: t[i] == t[1..][i - 1];
      }
    }
  }

  function SetStatus(t: Table, id: string, status: string, now: int): Table {
    if t == [] then []
    else
      [if t[0].id == id then t[0].(status := status, updatedAt := now) else t[0]] + SetStatus(t[1..], id, status, now)
  }

  lemma {:induction false} SetStatusAt(t: Table, id: string, status: string, now: int)
    ensures |SetStatus(t, id, status, now)| == |t|
    ensures forall i | 0 <= i < |t| ::
              SetStatus(t, id, status, now)[i]
              == if t[i].id == id then t[i].(status := status, updatedAt := now) else t[i]
  {
    if t == [] {
    } else {
      SetStatusAt(t[1..], id, status, now);
    }
  }

  function Children(t: Table, parent: string): Table {
    if t == [] then []
    else (if t[0].parentId == Some(parent) then [t[0]] else []) + Children(t[1..], parent)
  }

  lemma {:induction false} ChildrenMembers(t: Table, parent: string)
    ensures forall n :: n in Children(t, parent) <==> n in t && n.parentId == Some(parent)
  {
    if t == [] {
    } else {
      assert t == [t[0]] + t[1..];
      ChildrenMembers(t[1..], parent);
    }
  }

  /** A task still to be pulled. */
  predicate Pullable(n: Node) {
    (n.kind == "task" || n.kind == "subtask") && n.status == "backlog"
  }

  /** The order of the pull: priority, then age. */
  predicate NotAfter(a: Node, b: Node) {
    a.priority < b.priority || (a.priority == b.priority && a.createdAt <= b.createdAt)
  }

  /** First row of the sorted backlog. */
  function FindNextTask(t: Table): Option<Node> {
    if t == [] then None
    else
      var rest := FindNextTask(t[1..]);
      if Pullable(t[0]) && (rest.None? || NotAfter(t[0], rest.value)) then Some(t[0]) else rest
  }

  lemma {:induction false} FindNextTaskIsLeast(t: Table)
    ensures FindNextTask(t).None? <==> forall n | n in t :: !Pullable(n)
    ensures FindNextTask(t).Some? ==>
              var n := FindNextTask(t).value;
              n in t && Pullable(n) && forall m | m in t && Pullable(m) :: NotAfter(n, m)
  {
    if t == [] {
    } else {
      assert t == [t[0]] + t[1..];
      FindNextTaskIsLeast(t[1..]);
    }
  }

  datatype Fields = Fields(
    title: Option<string>, description: Option<string>, priority: Option<int>, acceptance: Option<seq<string>>,
    tags: Option<seq<string>>, xpSize: Option<string>, parentId: Option<string>)

  function Patch(n: Node, f: Fields, now: int): Node {
    n.(title := if f.title.Some? then f.title.value else n.title,
       description := if f.description.Some? then f.description else n.description,
       priority := if f.priority.Some? then f.priority.value else n.priority,
       acceptance := if f.acceptance.Some? then f.acceptance else n.acceptance,
       tags := if f.tags.Some? then f.tags else n.tags,
       xpSize := if f.xpSize.Some? then f.xpSize else n.xpSize,
       parentId := if f.parentId.Some? then f.parentId else n.parentId,
       updatedAt := now)
  }

  const NO_FIELDS := Fields(None, None, None, None, None, None, None)

  function PatchRow(t: Table, id: string, f: Fields, now: int): Table {
    if f == NO_FIELDS || t == [] then t
    else [if t[0].id == id then Patch(t[0], f, now) else t[0]] + PatchRow(t[1..], id, f, now)
  }

  lemma {:induction false} PatchRowAt(t: Table, id: string, f: Fields, now: int)
    ensures |PatchRow(t, id, f, now)| == |t|
    ensures forall i | 0 <= i < |t| ::
              PatchRow(t, id, f, now)[i] == if t[i].id == id && f != NO_FIELDS then Patch(t[i], f, now) else t[i]
  {
    if t == [] {
    } else {
      PatchRowAt(t[1..], id, f, now);
    }
  }
}
