/**
 The result cache of the MCP bridge (packages/mcp-server/src/tool-delegates.ts:28-92): which mutating
 call makes which cached answer stale, and what whole runs answer with and without the cache.
 */
module BridgeCache {
  import opened Prelude
  import opened BridgeStore
  import opened BridgeReads
  import opened Bridge

  /** Every cached answer is what the table would answer now. */
  ghost predicate Coherent(t: Table, edges: seq<Edge>, cache: Cache) {
    forall q | q in cache :: cache[q] == Answered(Looks(t), edges, q)
  }

  ghost predicate FreshId(t: Table, tool: Tool) {
    tool.AddNode? ==> tool.freshId != "" && forall n | n in t :: n.id != tool.freshId
  }

  // ---------------------------------------------------------------------------
  // What a mutating call does to the rows
  // ---------------------------------------------------------------------------

  /** The id of the row a mutating call rewrites. */
  ghost function Touched(t: Table, tool: Tool): Option<string> {
    match tool
    case UpdateStatus(id, _) => Some(id)
    case StartTask(nodeId) => if Chosen(t, nodeId).None? then None else Some(Chosen(t, nodeId).value.id)
    case FinishTask(id, _) => if exists n :: n in t && n.id == id && Qualifies(n) then Some(id) else None
    case UpdateNode(id, _) => Some(id)
    case _ => None
  }

  function Rewritten(n: Node, tool: Tool, now: int): Node {
    match tool
    case UpdateStatus(_, status) => n.(status := status, updatedAt := now)
    case StartTask(_) => n.(status := "in_progress", updatedAt := now)
    case FinishTask(_, _) => n.(status := "done", updatedAt := now)
    case UpdateNode(_, f) => if f == NO_FIELDS then n else Patch(n, f, now)
    case _ => n
  }

  ghost predicate RowsAfter(t: Table, tool: Tool, now: int, after: Table) {
    if tool.AddNode? then after == t + [NewNode(tool.freshId, tool.kind, tool.fields, now)]
    else
      |after| == |t| && forall i | 0 <= i < |t| ::
        after[i] == if Touched(t, tool) == Some(t[i].id) then Rewritten(t[i], tool, now) else t[i]
  }

  lemma MutationRows(t: Table, edges: seq<Edge>, tool: Tool, now: int)
    requires Keyed(t) && Mutating(tool)
    ensures RowsAfter(t, tool, now, Dispatch(t, edges, tool, now).0)
  {
    match tool
    case AddNode(_, _, _) =>
    case UpdateStatus(id, status) =>
      FindIsExact(t, id);
      SetStatusAt(t, id, status, now);
    case StartTask(nodeId) =>
      if Chosen(t, nodeId).Some? { SetStatusAt(t, Chosen(t, nodeId).value.id, "in_progress", now); }
    case FinishTask(id, _) =>
      FindIsExact(t, id);
      SetStatusAt(t, id, "done", now);
    case UpdateNode(id, f) =>
      FindIsExact(t, id);
      PatchRowAt(t, id, f, now);
  }

  /** The rewriting changes nothing of the row that a reading tool could print. */
  predicate Unseen(n: Node, tool: Tool) {
    match tool
    case UpdateStatus(_, status) => n.status == status
    case StartTask(_) => n.status == "in_progress"
    case FinishTask(_, _) => n.status == "done"
    case UpdateNode(_, f) =>
      && (f.title.Some? ==> f.title.value == n.title)
      && (f.priority.Some? ==> f.priority.value == n.priority)
      && (f.xpSize.Some? ==> f.xpSize == n.xpSize)
      && (f.tags.Some? ==> f.tags == n.tags)
      && (f.acceptance.Some? ==> |f.acceptance.value| == |OrElse(n.acceptance, [])|)
      && (f.parentId.Some? ==> f.parentId == n.parentId || (!NonEmpty(f.parentId) && !NonEmpty(n.parentId)))
    case _ => true
  }

  lemma UnseenIffSameLook(n: Node, tool: Tool, now: int)
    ensures LookOf(Rewritten(n, tool, now)) == LookOf(n) <==> Unseen(n, tool)
  {
  }

  /** What a caller can check before a mutating call to know that no cached answer can go stale. */
  ghost predicate Harmless(t: Table, tool: Tool) {
    match tool
    case AddNode(_, _, _) => false
    case FinishTask(id, _) => !exists n :: n in t && n.id == id && Qualifies(n)
    case StartTask(nodeId) => Chosen(t, nodeId).None? || Chosen(t, nodeId).value.status == "in_progress"
    case UpdateStatus(id, _) => forall n | n in t && n.id == id :: Unseen(n, tool)
    case UpdateNode(id, _) => forall n | n in t && n.id == id :: Unseen(n, tool)
    case _ => true
  }

  // ---------------------------------------------------------------------------
  // What cards and listings show
  // ---------------------------------------------------------------------------

  lemma {:induction false} CardIsOfRow(t: Table, id: string)
    ensures CardIn(Looks(t), id)
         == match Find(t, id)
            case None => NoSuchNode(id)
            case Some(n) => CardOfRow(LookOf(n))
  {
    if t == [] {
    } else {
      assert Looks(t)[1..] == Looks(t[1..]);
      CardIsOfRow(t[1..], id);
    }
  }

  lemma RowIsFound(t: Table, i: nat)
    requires UniqueIds(t) && i < |t|
    ensures Find(t, t[i].id) == Some(t[i])
  {
    FindIsExact(t, t[i].id);
  }

  /** The line a row has in a listing, if it is listed. */
  function Seen(q: Query, l: Look): Option<ListLine>
    requires q.ListNodes?
  {
    if Wanted(q, l) then Some(ListLineOf(l)) else None
  }

  function Listed(looks: seq<Look>, q: Query): seq<ListLine>
    requires q.ListNodes?
  {
    Lines(ListedLooks(looks, q), ListLineOf)
  }

  lemma ListedLooksMembers(looks: seq<Look>, q: Query, l: Look)
    requires q.ListNodes?
    ensures l in ListedLooks(looks, q) <==> l in looks && Wanted(q, l)
  {
    KeepMembers(looks, (l: Look) => Wanted(q, l));
    SortMembers(Keep(looks, (l: Look) => Wanted(q, l)), SortsByPriority(q), l);
  }

  lemma ListedMembers(looks: seq<Look>, q: Query, line: ListLine)
    requires q.ListNodes?
    ensures line in Listed(looks, q) <==> exists l :: l in looks && Seen(q, l) == Some(line)
  {
    var sorted := ListedLooks(looks, q);
    forall l ensures l in sorted <==> l in looks && Wanted(q, l) { ListedLooksMembers(looks, q, l); }
    if line in Listed(looks, q) {
      var i :| 0 <= i < |sorted| && ListLineOf(sorted[i]) == line;
      assert sorted[i] in looks && Seen(q, sorted[i]) == Some(line);
    }
    if l :| l in looks && Seen(q, l) == Some(line) {
      var i :| 0 <= i < |sorted| && sorted[i] == l;
      assert Listed(looks, q)[i] == line;
    }
  }

  predicate AlikeRows(x: Look, y: Look) {
    ListLineOf(x) == ListLineOf(y) && x.createdAt == y.createdAt
  }

  /** Rows that print the same line and sort the same way, place by place. */
  ghost predicate Alike(a: seq<Look>, b: seq<Look>) {
    |a| == |b| && forall i | 0 <= i < |a| :: AlikeRows(a[i], b[i])
  }

  lemma AlikeInFront(x: Look, y: Look, a: seq<Look>, b: seq<Look>)
    requires AlikeRows(x, y) && Alike(a, b)
    ensures Alike([x] + a, [y] + b)
  {
  }

  lemma {:induction false} InsertAlike(x: Look, y: Look, a: seq<Look>, b: seq<Look>, byPriority: bool)
    requires AlikeRows(x, y) && Alike(a, b)
    ensures Alike(Insert(x, a, byPriority), Insert(y, b, byPriority))
  {
    AlikeInFront(x, y, a, b);
    if a == [] || Precedes(x, a[0], byPriority) {
    } else {
      assert AlikeRows(a[0], b[0]) && Alike(a[1..], b[1..]);
      InsertAlike(x, y, a[1..], b[1..], byPriority);
      AlikeInFront(a[0], b[0], Insert(x, a[1..], byPriority), Insert(y, b[1..], byPriority));
    }
  }

  lemma {:induction false} SortAlike(a: seq<Look>, b: seq<Look>, byPriority: bool)
    requires Alike(a, b)
    ensures Alike(Sort(a, byPriority), Sort(b, byPriority))
  {
    if a == [] {
    } else {
      SortAlike(a[1..], b[1..], byPriority);
      InsertAlike(a[0], b[0], Sort(a[1..], byPriority), Sort(b[1..], byPriority), byPriority);
    }
  }

  lemma {:induction false} KeepAlike(a: seq<Look>, b: seq<Look>, q: Query)
    requires q.ListNodes? && |a| == |b|
    requires forall i | 0 <= i < |a| :: Seen(q, a[i]) == Seen(q, b[i]) && a[i].createdAt == b[i].createdAt
    ensures Alike(Keep(a, (l: Look) => Wanted(q, l)), Keep(b, (l: Look) => Wanted(q, l)))
  {
    if a == [] {
    } else {
      assert Seen(q, a[0]) == Seen(q, b[0]);
      KeepAlike(a[1..], b[1..], q);
    }
  }

  /** The same rows by id and age, whatever else they say. */
  ghost predicate SameRows(a: seq<Look>, b: seq<Look>) {
    && |a| == |b| && (forall i | 0 <= i < |a| :: a[i].id == b[i].id && a[i].createdAt == b[i].createdAt)
    && (forall i, j | 0 <= i < j < |a| :: a[i].id != a[j].id)
  }

  lemma OnlyOneSide(a: seq<Look>, b: seq<Look>, q: Query, i: nat)
    requires q.ListNodes? && SameRows(a, b) && i < |a|
    requires Seen(q, a[i]).Some? && Seen(q, a[i]) != Seen(q, b[i])
    ensures Listed(a, q) != Listed(b, q)
  {
    var line := Seen(q, a[i]).value;
    ListedMembers(a, q, line);
    ListedMembers(b, q, line);
    forall j | 0 <= j < |b|
      ensures Seen(q, b[j]) != Some(line)
    {
      assert j != i ==> b[j].id != a[i].id;
    }
  }

  /** A listing stays as it is exactly if each row shows the same line, or none, as before. */
  lemma ListingStaysIff(a: seq<Look>, b: seq<Look>, q: Query)
    requires q.ListNodes? && SameRows(a, b)
    ensures Listed(a, q) == Listed(b, q) <==> forall i | 0 <= i < |a| :: Seen(q, a[i]) == Seen(q, b[i])
  {
    if forall i | 0 <= i < |a| :: Seen(q, a[i]) == Seen(q, b[i]) {
      KeepAlike(a, b, q);
      SortAlike(Keep(a, (l: Look) => Wanted(q, l)), Keep(b, (l: Look) => Wanted(q, l)), SortsByPriority(q));
    }
    forall i | 0 <= i < |a| && Seen(q, a[i]) != Seen(q, b[i])
      ensures Listed(a, q) != Listed(b, q)
    {
      if Seen(q, a[i]).Some? { OnlyOneSide(a, b, q, i); } else { OnlyOneSide(b, a, q, i); }
    }
  }

  // ---------------------------------------------------------------------------
  // One mutating call
  // ---------------------------------------------------------------------------

  lemma LooksAfter(t: Table, tool: Tool, now: int, after: Table)
    requires Keyed(t) && !tool.AddNode? && RowsAfter(t, tool, now, after)
    ensures |Looks(t)| == |t| && SameRows(Looks(t), Looks(after))
    ensures forall i | 0 <= i < |t| ::
              Looks(after)[i] == if Touched(t, tool) == Some(t[i].id) then LookOf(Rewritten(t[i], tool, now))
                                 else Looks(t)[i]
  {
    LooksAt(t);
    LooksAt(after);
  }

  lemma LooksAdded(t: Table, n: Node)
    ensures Looks(t + [n]) == Looks(t) + [LookOf(n)]
  {
    LooksAt(t);
    LooksAt(t + [n]);
  }

  lemma CardAfter(t: Table, tool: Tool, now: int, after: Table, id: string)
    requires Keyed(t) && !tool.AddNode? && RowsAfter(t, tool, now, after)
    ensures Find(after, id)
         == match Find(t, id)
            case None => None
            case Some(n) => Some(if Touched(t, tool) == Some(id) then Rewritten(n, tool, now) else n)
  {
    FindIsExact(t, id);
    if Find(t, id).Some? {
      var i :| 0 <= i < |t| && t[i] == Find(t, id).value;
      RowIsFound(after, i);
    } else {
      FindIsExact(after, id);
    }
  }

  lemma {:induction false} AddedLast(t: Table, n: Node)
    requires forall m | m in t :: m.id != n.id
    ensures Find(t + [n], n.id) == Some(n) && Find(t, n.id).None?
  {
    if t == [] {
    } else {
      assert (t + [n])[1..] == t[1..] + [n];
      AddedLast(t[1..], n);
    }
  }

  lemma {:induction false} AddedElsewhere(t: Table, n: Node, id: string)
    requires n.id != id
    ensures Find(t + [n], id) == Find(t, id)
  {
    if t == [] {
    } else {
      assert (t + [n])[1..] == t[1..] + [n];
      AddedElsewhere(t[1..], n, id);
    }
  }

  lemma CardOfNewRow(t: Table, n: Node, id: string)
    requires forall m | m in t :: m.id != n.id
    ensures Find(t + [n], id) == if id == n.id then Some(n) else Find(t, id)
    ensures id == n.id ==> Find(t, id).None?
  {
    if id == n.id { AddedLast(t, n); } else { AddedElsewhere(t, n, id); }
  }

  /**
   A cached `get_node` goes stale exactly if the call adds that very id or rewrites that row in
   something its card prints.
   */
  lemma CardGoesStaleIff(t: Table, edges: seq<Edge>, tool: Tool, now: int, id: string)
    requires Keyed(t) && FreshId(t, tool) && Mutating(tool) && id != ""
    ensures var after := Dispatch(t, edges, tool, now).0;
            Answered(Looks(after), edges, GetNode(Some(id))) != Answered(Looks(t), edges, GetNode(Some(id))) <==>
              if tool.AddNode? then id == tool.freshId
              else exists n :: && n in t && n.id == id && Touched(t, tool) == Some(id)
                               && CardOfRow(LookOf(Rewritten(n, tool, now))) != CardOfRow(LookOf(n))
  {
    var after := Dispatch(t, edges, tool, now).0;
    MutationRows(t, edges, tool, now);
    CardIsOfRow(t, id);
    CardIsOfRow(after, id);
    if tool.AddNode? {
      CardOfNewRow(t, after[|t|], id);
    } else {
      CardAfter(t, tool, now, after, id);
      FindIsExact(t, id);
      forall n | n in t && n.id == id ensures Find(t, id) == Some(n) {
        var i :| 0 <= i < |t| && t[i] == n;
        RowIsFound(t, i);
      }
    }
  }

  lemma {:induction false} KeepAdded(looks: seq<Look>, l: Look, test: Look -> bool)
    requires !test(l)
    ensures Keep(looks + [l], test) == Keep(looks, test)
  {
    if looks == [] {
    } else {
      assert (looks + [l])[1..] == looks[1..] + [l];
      KeepAdded(looks[1..], l, test);
    }
  }

  lemma ListingWithNewRow(t: Table, n: Node, q: Query)
    requires q.ListNodes? && forall m | m in t :: m.id != n.id
    ensures Listed(Looks(t + [n]), q) != Listed(Looks(t), q) <==> Wanted(q, LookOf(n))
  {
    LooksAdded(t, n);
    LooksAt(t);
    if Wanted(q, LookOf(n)) {
      var line := ListLineOf(LookOf(n));
      ListedMembers(Looks(t), q, line);
      ListedMembers(Looks(t + [n]), q, line);
      assert LookOf(n) in Looks(t + [n]) && Seen(q, LookOf(n)) == Some(line);
    } else {
      KeepAdded(Looks(t), LookOf(n), (l: Look) => Wanted(q, l));
    }
  }

  /**
   A cached listing goes stale exactly if the call adds a row the filter wants, or rewrites a row so
   that it enters the listing, leaves it, or shows another line.
   */
  lemma ListingGoesStaleIff(t: Table, edges: seq<Edge>, tool: Tool, now: int, q: Query)
    requires Keyed(t) && FreshId(t, tool) && Mutating(tool) && q.ListNodes?
    ensures var after := Dispatch(t, edges, tool, now).0;
            Answered(Looks(after), edges, q) != Answered(Looks(t), edges, q) <==>
              if tool.AddNode? then Wanted(q, LookOf(NewNode(tool.freshId, tool.kind, tool.fields, now)))
              else exists n :: && n in t && Touched(t, tool) == Some(n.id)
                               && Seen(q, LookOf(Rewritten(n, tool, now))) != Seen(q, LookOf(n))
  {
    var after := Dispatch(t, edges, tool, now).0;
    MutationRows(t, edges, tool, now);
    LooksAt(t);
    if tool.AddNode? {
      ListingWithNewRow(t, after[|t|], q);
    } else {
      LooksAfter(t, tool, now, after);
      ListingStaysIff(Looks(t), Looks(after), q);
    }
  }

  /** A row that has moved to another parent is listed under only one of the two. */
  lemma ParentTells(a: seq<Look>, b: seq<Look>, i: nat, parent: Option<string>)
    requires SameRows(a, b) && i < |a| && NonEmpty(parent) && (a[i].parentId == parent) != (b[i].parentId == parent)
    ensures Listed(a, ListNodes(parent, None, None)) != Listed(b, ListNodes(parent, None, None))
  {
    var q := ListNodes(parent, None, None);
    ListingStaysIff(a, b, q);
    assert Seen(q, a[i]).Some? != Seen(q, b[i]).Some?;
  }

  lemma CardTells(t: Table, u: Table, i: nat)
    requires UniqueIds(t) && UniqueIds(u) && i < |t| && i < |u| && t[i].id == u[i].id
    requires LookOf(t[i]).parentId == LookOf(u[i]).parentId && LookOf(t[i]).createdAt == LookOf(u[i]).createdAt
    requires LookOf(t[i]) != LookOf(u[i])
    ensures CardIn(Looks(t), t[i].id) != CardIn(Looks(u), t[i].id)
  {
    CardIsOfRow(t, t[i].id);
    CardIsOfRow(u, t[i].id);
    RowIsFound(t, i);
    RowIsFound(u, i);
  }

  lemma SameRowsByRow(t: Table, u: Table, i: nat)
    requires SameRows(Looks(t), Looks(u)) && i < |Looks(t)|
    ensures UniqueIds(u) && i < |t| == |u| && Looks(t)[i] == LookOf(t[i]) && Looks(u)[i] == LookOf(u[i])
    ensures t[i].id == u[i].id && LookOf(t[i]).createdAt == LookOf(u[i]).createdAt
  {
    LooksAt(t);
    LooksAt(u);
    assert forall j | 0 <= j < |u| :: Looks(u)[j].id == u[j].id;
    assert LookOf(t[i]).id == LookOf(u[i]).id;
  }

  /** Two tables of the same rows that look different: some query tells them apart. */
  lemma TellingQuery(t: Table, u: Table, edges: seq<Edge>, i: nat) returns (q: Query)
    requires Keyed(t) && SameRows(Looks(t), Looks(u)) && i < |Looks(t)| && Looks(t)[i] != Looks(u)[i]
    ensures Answered(Looks(t), edges, q) != Answered(Looks(u), edges, q)
  {
    SameRowsByRow(t, u, i);
    var a, b := Looks(t)[i].parentId, Looks(u)[i].parentId;
    if a == b {
      assert t[i] in t;
      q := GetNode(Some(t[i].id));
      CardTells(t, u, i);
    } else {
      var parent := if a.Some? then a else b;
      q := ListNodes(parent, None, None);
      ParentTells(Looks(t), Looks(u), i, parent);
    }
  }

  lemma TouchedRowDecides(t: Table, tool: Tool)
    requires Keyed(t) && !tool.AddNode? && Mutating(tool)
    ensures Harmless(t, tool) <==> forall n | n in t && Touched(t, tool) == Some(n.id) :: Unseen(n, tool)
  {
    if tool.StartTask? && Chosen(t, tool.wanted).Some? {
      var c := Chosen(t, tool.wanted).value;
      FindNextTaskIsLeast(t);
      if NonEmpty(tool.wanted) { FindIsExact(t, tool.wanted.value); }
      assert c in t;
    }
    if tool.FinishTask? {
      assert forall n | n in t && n.id == tool.nodeId && Qualifies(n) :: !Unseen(n, tool);
    }
  }

  /** The guard is exact: nothing a reader can see changes, or some query answers differently. */
  lemma HarmlessIffSameLooks(t: Table, edges: seq<Edge>, tool: Tool, now: int)
    requires Keyed(t) && FreshId(t, tool) && Mutating(tool)
    ensures Looks(Dispatch(t, edges, tool, now).0) == Looks(t) <==> Harmless(t, tool)
  {
    var after := Dispatch(t, edges, tool, now).0;
    MutationRows(t, edges, tool, now);
    LooksAt(t);
    LooksAt(after);
    if !tool.AddNode? {
      forall n | n in t ensures LookOf(Rewritten(n, tool, now)) == LookOf(n) <==> Unseen(n, tool) {
        UnseenIffSameLook(n, tool, now);
      }
      TouchedRowDecides(t, tool);
      assert Harmless(t, tool) <==> forall n | n in t && Touched(t, tool) == Some(n.id) :: Unseen(n, tool);
      assert forall i | 0 <= i < |t| :: t[i] in t;
    }
  }

  /** A query that answers differently after a call which changed what readers see. */
  lemma StaleQuery(t: Table, edges: seq<Edge>, tool: Tool, now: int) returns (q: Query)
    requires Keyed(t) && FreshId(t, tool) && Mutating(tool)
    requires Looks(Dispatch(t, edges, tool, now).0) != Looks(t)
    ensures Answered(Looks(Dispatch(t, edges, tool, now).0), edges, q) != Answered(Looks(t), edges, q)
  {
    var after := Dispatch(t, edges, tool, now).0;
    if tool.AddNode? {
      q := GetNode(Some(tool.freshId));
      CardGoesStaleIff(t, edges, tool, now, tool.freshId);
    } else {
      MutationRows(t, edges, tool, now);
      LooksAfter(t, tool, now, after);
      var i :| 0 <= i < |Looks(t)| && Looks(t)[i] != Looks(after)[i];
      q := TellingQuery(t, after, edges, i);
    }
  }

  /**
   Without a drop, a mutating call leaves every coherent cache coherent exactly if it is harmless: it
   finds no row to change, fails its checks, or writes nothing that a reading tool prints.
   */
  lemma MutationKeepsCachesIff(t: Table, edges: seq<Edge>, tool: Tool, now: int)
    requires Keyed(t) && FreshId(t, tool) && Mutating(tool)
    ensures var after := Dispatch(t, edges, tool, now).0;
            (forall cache | Coherent(t, edges, cache) :: Coherent(after, edges, cache)) <==> Harmless(t, tool)
  {
    var after := Dispatch(t, edges, tool, now).0;
    HarmlessIffSameLooks(t, edges, tool, now);
    if Looks(after) != Looks(t) {
      var q := StaleQuery(t, edges, tool, now);
      var cache: Cache := map[q := Answered(Looks(t), edges, q)];
      assert Coherent(t, edges, cache);
      assert !Coherent(after, edges, cache);
    }
  }

  // ---------------------------------------------------------------------------
  // Whole runs
  // ---------------------------------------------------------------------------

  /** One request: the tool, the clock, and whether the adapter drops its entries after it. */
  datatype Request = Request(tool: Tool, now: int, drops: bool)

  /** The table before request `i`; the cache has no part in it. */
  function TableAt(t: Table, edges: seq<Edge>, rs: seq<Request>, i: nat): Table
    requires i <= |rs|
  {
    if i == 0 then t else Dispatch(TableAt(t, edges, rs, i - 1), edges, rs[i - 1].tool, rs[i - 1].now).0
  }

  function PlainAnswer(t: Table, edges: seq<Edge>, rs: seq<Request>, i: nat): Answer
    requires i < |rs|
  {
    Dispatch(TableAt(t, edges, rs, i), edges, rs[i].tool, rs[i].now).1
  }

  /** The cache before request `i`. */
  function CacheAt(t: Table, edges: seq<Edge>, cache: Cache, rs: seq<Request>, i: nat): Cache
    requires i <= |rs|
  {
    if i == 0 then cache
    else if rs[i - 1].drops then map[]
    else
      Delegate(TableAt(t, edges, rs, i - 1), edges, CacheAt(t, edges, cache, rs, i - 1), true,
               rs[i - 1].tool, rs[i - 1].now).1
  }

  function CachedAnswer(t: Table, edges: seq<Edge>, cache: Cache, rs: seq<Request>, i: nat): Answer
    requires i < |rs|
  {
    Delegate(TableAt(t, edges, rs, i), edges, CacheAt(t, edges, cache, rs, i), true, rs[i].tool, rs[i].now).2
  }

  /** The first `i` requests bring fresh ids where they add a row. */
  ghost predicate FreshRun(t: Table, edges: seq<Edge>, rs: seq<Request>, i: nat)
    requires i <= |rs|
  {
    i == 0 || (FreshRun(t, edges, rs, i - 1) && FreshId(TableAt(t, edges, rs, i - 1), rs[i - 1].tool))
  }

  lemma DispatchKeepsKeys(t: Table, edges: seq<Edge>, tool: Tool, now: int)
    requires Keyed(t) && FreshId(t, tool)
    ensures Keyed(Dispatch(t, edges, tool, now).0)
  {
    if Mutating(tool) { MutationRows(t, edges, tool, now); }
  }

  lemma {:induction false} RunKeepsKeys(t: Table, edges: seq<Edge>, rs: seq<Request>, i: nat)
    requires i <= |rs| && Keyed(t) && FreshRun(t, edges, rs, i)
    ensures Keyed(TableAt(t, edges, rs, i))
  {
    if i == 0 {
    } else {
      RunKeepsKeys(t, edges, rs, i - 1);
      DispatchKeepsKeys(TableAt(t, edges, rs, i - 1), edges, rs[i - 1].tool, rs[i - 1].now);
    }
  }

  ghost predicate DropsIfHarmful(t: Table, r: Request) {
    Mutating(r.tool) ==> r.drops || Harmless(t, r.tool)
  }

  /** Each mutating call among the first `i` drops the entries afterwards, or is harmless where it happens. */
  ghost predicate DropsWhenHarmful(t: Table, edges: seq<Edge>, rs: seq<Request>, i: nat)
    requires i <= |rs|
  {
    i == 0 || (DropsWhenHarmful(t, edges, rs, i - 1) && DropsIfHarmful(TableAt(t, edges, rs, i - 1), rs[i - 1]))
  }

  /** One request with its drop keeps the cache coherent. */
  lemma RequestKeepsCoherence(t: Table, edges: seq<Edge>, cache: Cache, r: Request)
    requires Keyed(t) && FreshId(t, r.tool) && Coherent(t, edges, cache) && DropsIfHarmful(t, r)
    ensures Coherent(Dispatch(t, edges, r.tool, r.now).0, edges,
                     if r.drops then map[] else Delegate(t, edges, cache, true, r.tool, r.now).1)
  {
    if Mutating(r.tool) && !r.drops { HarmlessIffSameLooks(t, edges, r.tool, r.now); }
  }

  lemma {:induction false} CacheStaysCoherent(t: Table, edges: seq<Edge>, cache: Cache, rs: seq<Request>, i: nat)
    requires i <= |rs| && Keyed(t) && FreshRun(t, edges, rs, i) && Coherent(t, edges, cache)
    requires DropsWhenHarmful(t, edges, rs, i)
    ensures Coherent(TableAt(t, edges, rs, i), edges, CacheAt(t, edges, cache, rs, i))
  {
    if i == 0 {
    } else {
      CacheStaysCoherent(t, edges, cache, rs, i - 1);
      RunKeepsKeys(t, edges, rs, i - 1);
      var table, kept := TableAt(t, edges, rs, i - 1), CacheAt(t, edges, cache, rs, i - 1);
      RequestKeepsCoherence(table, edges, kept, rs[i - 1]);
      assert TableAt(t, edges, rs, i) == Dispatch(table, edges, rs[i - 1].tool, rs[i - 1].now).0;
    }
  }

  lemma CoherentAnswersAgree(t: Table, edges: seq<Edge>, cache: Cache, tool: Tool, now: int)
    requires Coherent(t, edges, cache)
    ensures Delegate(t, edges, cache, true, tool, now).2 == Dispatch(t, edges, tool, now).1
  {
  }

  lemma {:induction false} ShorterRun(t: Table, edges: seq<Edge>, rs: seq<Request>, i: nat, n: nat)
    requires i <= n <= |rs| && FreshRun(t, edges, rs, n) && DropsWhenHarmful(t, edges, rs, n)
    ensures FreshRun(t, edges, rs, i) && DropsWhenHarmful(t, edges, rs, i)
    decreases n
  {
    if i == n {
    } else {
      ShorterRun(t, edges, rs, i, n - 1);
    }
  }

  /**
   From a coherent cache, a run that drops the entries on every mutation that is not harmless answers
   every request as the uncached dispatcher does, and its cache is coherent at every point.
   */
  lemma CachedRunsAgree(t: Table, edges: seq<Edge>, cache: Cache, rs: seq<Request>)
    requires Keyed(t) && Coherent(t, edges, cache)
    requires FreshRun(t, edges, rs, |rs|) && DropsWhenHarmful(t, edges, rs, |rs|)
    ensures forall i | 0 <= i < |rs| :: CachedAnswer(t, edges, cache, rs, i) == PlainAnswer(t, edges, rs, i)
    ensures forall i | 0 <= i <= |rs| :: Coherent(TableAt(t, edges, rs, i), edges, CacheAt(t, edges, cache, rs, i))
  {
    forall i | 0 <= i <= |rs|
      ensures Coherent(TableAt(t, edges, rs, i), edges, CacheAt(t, edges, cache, rs, i))
      ensures i < |rs| ==> CachedAnswer(t, edges, cache, rs, i) == PlainAnswer(t, edges, rs, i)
    {
      ShorterRun(t, edges, rs, i, |rs|);
      CacheStaysCoherent(t, edges, cache, rs, i);
      if i < |rs| {
        CoherentAnswersAgree(TableAt(t, edges, rs, i), edges, CacheAt(t, edges, cache, rs, i), rs[i].tool, rs[i].now);
      }
    }
  }

  /** The first request at or after the last drop before `i`. */
  function SinceDrop(rs: seq<Request>, i: nat): (s: nat)
    requires i <= |rs|
    ensures s <= i
  {
    if i == 0 || rs[i - 1].drops then i else SinceDrop(rs, i - 1)
  }

  /** The first of the requests from `from` on that asks `q`, or else `until`. */
  function FirstAsked(rs: seq<Request>, q: Query, from: nat, until: nat): (j: nat)
    requires from <= until <= |rs|
    ensures from <= j <= until
    decreases until - from
  {
    if from == until || rs[from].tool == Read(q) then from else FirstAsked(rs, q, from + 1, until)
  }

  lemma {:induction false} FirstAskedOneMore(rs: seq<Request>, q: Query, from: nat, until: nat)
    requires from <= until < |rs|
    ensures FirstAsked(rs, q, from, until + 1)
         == if FirstAsked(rs, q, from, until) < until || rs[until].tool == Read(q) then FirstAsked(rs, q, from, until)
            else until + 1
    decreases until - from
  {
    if from == until || rs[from].tool == Read(q) {
    } else {
      FirstAskedOneMore(rs, q, from + 1, until);
    }
  }

  /** The cache as a memo of the answers `answerAt(i, q)` that the requests would find. */
  ghost function MemoAt(answerAt: (nat, Query) -> View, rs: seq<Request>, i: nat): Cache
    requires i <= |rs|
  {
    if i == 0 || rs[i - 1].drops then map[]
    else
      var before, tool := MemoAt(answerAt, rs, i - 1), rs[i - 1].tool;
      if tool.Read? && tool.query !in before then before[tool.query := answerAt(i - 1, tool.query)] else before
  }

  /** An entry is there exactly if its query was asked since the last drop, and holds the answer of that time. */
  lemma {:induction false} MemoHolds(answerAt: (nat, Query) -> View, rs: seq<Request>, i: nat, q: Query)
    requires i <= |rs|
    ensures var j := FirstAsked(rs, q, SinceDrop(rs, i), i);
            var cache := MemoAt(answerAt, rs, i);
            (q in cache <==> j < i) && (q in cache ==> cache[q] == answerAt(j, q))
  {
    if i == 0 || rs[i - 1].drops {
    } else {
      MemoHolds(answerAt, rs, i - 1, q);
      FirstAskedOneMore(rs, q, SinceDrop(rs, i - 1), i - 1);
    }
  }

  ghost function AnswerAt(t: Table, edges: seq<Edge>, rs: seq<Request>): (nat, Query) -> View {
    (i: nat, q: Query) => if i <= |rs| then Answered(Looks(TableAt(t, edges, rs, i)), edges, q) else NodeIdRequired
  }

  /** The table is that of the dispatch. A read adds its own answer if it has none yet; nothing else adds one. */
  lemma DelegateMemoises(t: Table, edges: seq<Edge>, cache: Cache, tool: Tool, now: int)
    ensures Delegate(t, edges, cache, true, tool, now).0 == Dispatch(t, edges, tool, now).0
    ensures Delegate(t, edges, cache, true, tool, now).1
         == if tool.Read? && tool.query !in cache then cache[tool.query := Answered(Looks(t), edges, tool.query)]
            else cache
  {
  }

  lemma MemoStep(t: Table, edges: seq<Edge>, rs: seq<Request>, i: nat)
    requires i < |rs| && !rs[i].drops
    requires CacheAt(t, edges, map[], rs, i) == MemoAt(AnswerAt(t, edges, rs), rs, i)
    ensures CacheAt(t, edges, map[], rs, i + 1) == MemoAt(AnswerAt(t, edges, rs), rs, i + 1)
  {
    var table, cache := TableAt(t, edges, rs, i), CacheAt(t, edges, map[], rs, i);
    DelegateMemoises(table, edges, cache, rs[i].tool, rs[i].now);
    assert CacheAt(t, edges, map[], rs, i + 1) == Delegate(table, edges, cache, true, rs[i].tool, rs[i].now).1;
  }

  lemma {:induction false} CacheIsMemo(t: Table, edges: seq<Edge>, rs: seq<Request>, i: nat)
    requires i <= |rs|
    ensures CacheAt(t, edges, map[], rs, i) == MemoAt(AnswerAt(t, edges, rs), rs, i)
  {
    if i == 0 || rs[i - 1].drops {
    } else {
      CacheIsMemo(t, edges, rs, i - 1);
      MemoStep(t, edges, rs, i - 1);
    }
  }

  /** The request whose answer a cached run gives at request `i`. */
  function Origin(rs: seq<Request>, i: nat): nat
    requires i < |rs|
  {
    if rs[i].tool.Read? then FirstAsked(rs, rs[i].tool.query, SinceDrop(rs, i), i) else i
  }

  lemma {:induction false} SinceDropIsLast(rs: seq<Request>, i: nat)
    requires i <= |rs|
    ensures var s := SinceDrop(rs, i);
            (s > 0 ==> rs[s - 1].drops) && forall m | s <= m < i :: !rs[m].drops
  {
    if i == 0 || rs[i - 1].drops {
    } else {
      SinceDropIsLast(rs, i - 1);
    }
  }

  lemma {:induction false} FirstAskedIsFirst(rs: seq<Request>, q: Query, from: nat, until: nat)
    requires from <= until <= |rs|
    ensures var j := FirstAsked(rs, q, from, until);
            (j < until ==> rs[j].tool == Read(q)) && forall m | from <= m < j :: rs[m].tool != Read(q)
    decreases until - from
  {
    if from == until || rs[from].tool == Read(q) {
    } else {
      FirstAskedIsFirst(rs, q, from + 1, until);
    }
  }

  /** The origin of a read is the earliest same read that no drop separates from it. */
  lemma OriginIsEarliest(rs: seq<Request>, i: nat, k: nat)
    requires k <= i < |rs| && rs[i].tool.Read?
    ensures rs[Origin(rs, i)].tool == rs[i].tool && forall m | Origin(rs, i) <= m < i :: !rs[m].drops
    ensures rs[k].tool == rs[i].tool && (forall m | k <= m < i :: !rs[m].drops) ==> Origin(rs, i) <= k
  {
    SinceDropIsLast(rs, i);
    FirstAskedIsFirst(rs, rs[i].tool.query, SinceDrop(rs, i), i);
  }

  /** With a cache that starts empty, a read is answered as at the first time it was asked since the last drop. */
  lemma CachedAnswersAreFirstReads(t: Table, edges: seq<Edge>, rs: seq<Request>, i: nat)
    requires i < |rs|
    ensures CachedAnswer(t, edges, map[], rs, i) == PlainAnswer(t, edges, rs, Origin(rs, i))
  {
    if rs[i].tool.Read? {
      CacheIsMemo(t, edges, rs, i);
      MemoHolds(AnswerAt(t, edges, rs), rs, i, rs[i].tool.query);
      FirstAskedIsFirst(rs, rs[i].tool.query, SinceDrop(rs, i), i);
    }
  }

  /** Caching is invisible in a run exactly if no read finds another answer than when it was first asked. */
  lemma CachingIsInvisibleIff(t: Table, edges: seq<Edge>, rs: seq<Request>)
    ensures (forall i | 0 <= i < |rs| :: CachedAnswer(t, edges, map[], rs, i) == PlainAnswer(t, edges, rs, i)) <==>
            (forall i | 0 <= i < |rs| && rs[i].tool.Read? ::
               PlainAnswer(t, edges, rs, Origin(rs, i)) == PlainAnswer(t, edges, rs, i))
  {
    forall i | 0 <= i < |rs|
      ensures CachedAnswer(t, edges, map[], rs, i) == PlainAnswer(t, edges, rs, Origin(rs, i))
    {
      CachedAnswersAreFirstReads(t, edges, rs, i);
    }
  }

  /** Read, mutate, read again without a drop: the cache shows exactly if the mutation made that answer stale. */
  lemma ReadMutateReadIff(t: Table, edges: seq<Edge>, q: Query, tool: Tool, a: int, b: int, c: int)
    requires Mutating(tool)
    ensures var rs := [Request(Read(q), a, false), Request(tool, b, false), Request(Read(q), c, false)];
            CachedAnswer(t, edges, map[], rs, 2) == PlainAnswer(t, edges, rs, 2) <==>
            Answered(Looks(Dispatch(t, edges, tool, b).0), edges, q) == Answered(Looks(t), edges, q)
  {
    var rs := [Request(Read(q), a, false), Request(tool, b, false), Request(Read(q), c, false)];
    CachedAnswersAreFirstReads(t, edges, rs, 2);
    assert SinceDrop(rs, 1) == 0 && SinceDrop(rs, 2) == 0;
    assert TableAt(t, edges, rs, 1) == t;
    assert TableAt(t, edges, rs, 2) == Dispatch(t, edges, tool, b).0;
  }

  /** Read, finish elsewhere, read again: without a drop the second card still shows the old status. */
  lemma StaleCard()
    ensures var n := Node("n1", "task", "T", None, "backlog", 3, None, None, None, None, 0, 0);
            var card := Read(GetNode(Some("n1")));
            var rs := [Request(card, 1, false), Request(UpdateStatus("n1", "done"), 2, false), Request(card, 3, false)];
            CachedAnswer([n], [], map[], rs, 2) != PlainAnswer([n], [], rs, 2)
  {
    var n := Node("n1", "task", "T", None, "backlog", 3, None, None, None, None, 0, 0);
    var done := UpdateStatus("n1", "done");
    ReadMutateReadIff([n], [], GetNode(Some("n1")), done, 1, 2, 3);
    CardGoesStaleIff([n], [], done, 2, "n1");
    assert "backlog"[0] == 'b' && "done"[0] == 'd';
    assert n in [n] && CardOfRow(LookOf(Rewritten(n, done, 2))).status == "done";
  }
}
