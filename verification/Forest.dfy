/**
 The graph tree of the interactive view (src/tui/interactive-app.tsx:143-183, 539-546): a forest
 grown from parent pointers that may dangle or run in circles, and its visible flattening.
 */
module Forest {
  import opened Prelude

  datatype Row = Row(id: string, parentId: Option<string>, title: string, kind: string, status: string)
  datatype Tree = Tree(row: Row, children: seq<Tree>)

  ghost predicate UniqueIds(raw: seq<Row>) {
    forall i, j | 0 <= i < j < |raw| :: raw[i].id != raw[j].id
  }

  /** The rows under one parent, in input order. */
  function ChildrenOf(raw: seq<Row>, parent: Option<string>): seq<Row> {
    if raw == [] then []
    else (if raw[0].parentId == parent then [raw[0]] else []) + ChildrenOf(raw[1..], parent)
  }

  lemma {:induction false} ChildrenOfMembers(raw: seq<Row>, parent: Option<string>)
    ensures forall r :: r in ChildrenOf(raw, parent) <==> r in raw && r.parentId == parent
  {
    if raw == [] {
    } else {
      assert raw == [raw[0]] + raw[1..];
      ChildrenOfMembers(raw[1..], parent);
    }
  }

  lemma {:induction false} ChildrenOfUnique(raw: seq<Row>, parent: Option<string>)
    requires UniqueIds(raw)
    ensures UniqueIds(ChildrenOf(raw, parent))
  {
    if raw == [] {
    } else {
      ChildrenOfUnique(raw[1..], parent);
      ChildrenOfMembers(raw[1..], parent);
      assert forall r <- ChildrenOf(raw[1..], parent) :: r.id != raw[0].id;
    }
  }

  lemma {:induction false} ChildrenOfSnoc(raw: seq<Row>, r: Row, parent: Option<string>)
    ensures ChildrenOf(raw + [r], parent) == ChildrenOf(raw, parent) + if r.parentId == parent then [r] else []
  {
    if raw == [] {
      assert [r][1..] == [];
    } else {
      var head := if raw[0].parentId == parent then [raw[0]] else [];
      var tail := if r.parentId == parent then [r] else [];
      assert (raw + [r])[1..] == raw[1..] + [r] && (raw + [r])[0] == raw[0];
      ChildrenOfSnoc(raw[1..], r, parent);
      assert head + (ChildrenOf(raw[1..], parent) + tail) == (head + ChildrenOf(raw[1..], parent)) + tail;
    }
  }

  function Lookup(m: map<Option<string>, seq<Row>>, parent: Option<string>): seq<Row> {
    if parent in m then m[parent] else []
  }

  /** Buckets the rows by parent pointer. */
  method GroupByParent(raw: seq<Row>) returns (byParent: map<Option<string>, seq<Row>>)
    ensures forall parent :: Lookup(byParent, parent) == ChildrenOf(raw, parent)
  {
    byParent := map[];
    var i := 0;
    while i < |raw|
      invariant 0 <= i <= |raw|
      invariant forall parent :: Lookup(byParent, parent) == ChildrenOf(raw[..i], parent)
    {
      var p := raw[i].parentId;
      assert raw[..i + 1] == raw[..i] + [raw[i]];
      forall parent ensures ChildrenOf(raw[..i + 1], parent)
                         == ChildrenOf(raw[..i], parent) + if p == parent then [raw[i]] else [] {
        ChildrenOfSnoc(raw[..i], raw[i], parent);
      }
      ghost var before := byParent;
      byParent := byParent[p := Lookup(byParent, p) + [raw[i]]];
      forall parent ensures Lookup(byParent, parent) == ChildrenOf(raw[..i + 1], parent) {
        assert Lookup(byParent, parent) == Lookup(before, parent) + if p == parent then [raw[i]] else [];
      }
      i := i + 1;
    }
    assert raw[..i] == raw;
  }

  function BuildAll(raw: seq<Row>, rows: seq<Row>, depth: nat): Option<seq<Tree>>
    requires depth > 0
    decreases depth - 1, 1, |rows|
  {
    if rows == [] then Some([])
    else
      match (Build(raw, Some(rows[0].id), depth - 1), BuildAll(raw, rows[1..], depth))
      case (Some(kids), Some(rest)) => Some([Tree(rows[0], kids)] + rest)
      case _ => None
  }

  /** The recursive build with a call stack of `depth` frames; None is a stack overflow. */
  function Build(raw: seq<Row>, parent: Option<string>, depth: nat): Option<seq<Tree>>
    decreases depth, 0, 0
  {
    if depth == 0 then None else BuildAll(raw, ChildrenOf(raw, parent), depth)
  }

  // ---------------------------------------------------------------------------
  // Level by level
  // ---------------------------------------------------------------------------

  /** `places` are exactly the positions of the rows under one parent, in their order. */
  ghost predicate PlacesUnder(raw: seq<Row>, parent: Option<string>, places: seq<nat>) {
    && (forall i, j | 0 <= i < j < |places| :: places[i] < places[j])
    && (forall k: nat :: k in places <==> k < |raw| && raw[k].parentId == parent)
  }

  ghost predicate RowsAtPlaces(raw: seq<Row>, places: seq<nat>, forest: seq<Tree>) {
    |places| == |forest| && forall i | 0 <= i < |forest| :: places[i] < |raw| && forest[i].row == raw[places[i]]
  }

  /** The trees stand for exactly the rows under one parent in input order, and so on below each of them. */
  ghost predicate GrownUnder(raw: seq<Row>, parent: Option<string>, forest: seq<Tree>)
    decreases forest
  {
    && (exists places ::
          PlacesUnder(raw, parent, places) && |places| == |forest| && RowsAtPlaces(raw, places, forest))
    && forall i | 0 <= i < |forest| :: GrownUnder(raw, Some(forest[i].row.id), forest[i].children)
  }

  lemma {:induction false} ChildrenHavePlaces(raw: seq<Row>, parent: Option<string>) returns (places: seq<nat>)
    ensures PlacesUnder(raw, parent, places) && |places| == |ChildrenOf(raw, parent)|
    ensures forall i | 0 <= i < |places| :: places[i] < |raw| && ChildrenOf(raw, parent)[i] == raw[places[i]]
  {
    if raw == [] {
      places := [];
    } else {
      var last := |raw| - 1;
      var before := ChildrenHavePlaces(raw[..last], parent);
      ChildrenOfSnoc(raw[..last], raw[last], parent);
      assert raw == raw[..last] + [raw[last]];
      places := before + if raw[last].parentId == parent then [last] else [];
      assert forall i | 0 <= i < |before| :: before[i] in before;
      forall k: nat ensures k in places <==> k < |raw| && raw[k].parentId == parent {
        assert k < last ==> raw[..last][k] == raw[k];
      }
    }
  }

  lemma {:induction false} BuildAllRows(raw: seq<Row>, rows: seq<Row>, depth: nat)
    requires depth > 0 && BuildAll(raw, rows, depth).Some?
    ensures var forest := BuildAll(raw, rows, depth).value;
            && |forest| == |rows|
            && forall i | 0 <= i < |rows| ::
                 forest[i].row == rows[i] && Build(raw, Some(rows[i].id), depth - 1) == Some(forest[i].children)
    decreases |rows|
  {
    if rows == [] {
    } else {
      BuildAllRows(raw, rows[1..], depth);
    }
  }

  /** At every level of the built forest, the trees are exactly the rows under their parent, in input order. */
  lemma {:induction false} ForestIsGrown(raw: seq<Row>, parent: Option<string>, depth: nat)
    requires Build(raw, parent, depth).Some?
    ensures GrownUnder(raw, parent, Build(raw, parent, depth).value)
    decreases depth
  {
    var forest := Build(raw, parent, depth).value;
    var places := ChildrenHavePlaces(raw, parent);
    BuildAllRows(raw, ChildrenOf(raw, parent), depth);
    assert RowsAtPlaces(raw, places, forest);
    forall i | 0 <= i < |forest| ensures GrownUnder(raw, Some(forest[i].row.id), forest[i].children) {
      ForestIsGrown(raw, Some(forest[i].row.id), depth - 1);
    }
  }

  // ---------------------------------------------------------------------------
  // Root paths
  // ---------------------------------------------------------------------------

  /** A chain of rows from a row without parent down along parent pointers. */
  ghost predicate RootPath(raw: seq<Row>, path: seq<Row>) {
    && (forall i | 0 <= i < |path| :: path[i] in raw)
    && (path != [] ==> path[0].parentId == None)
    && (forall i | 0 < i < |path| :: path[i].parentId == Some(path[i - 1].id))
  }

  /** The pointer under which the children of a path's end are filed. */
  ghost function EndPointer(path: seq<Row>): Option<string> {
    if path == [] then None else Some(path[|path| - 1].id)
  }

  ghost predicate Rooted(raw: seq<Row>, r: Row) {
    exists path :: RootPath(raw, path) && path != [] && path[|path| - 1] == r
  }

  lemma SameIdSameRow(raw: seq<Row>, a: Row, b: Row)
    requires UniqueIds(raw) && a in raw && b in raw && a.id == b.id
    ensures a == b
  {
  }

  /** With unique ids a row has one root path. */
  lemma {:induction false} RootPathIsUnique(raw: seq<Row>, p: seq<Row>, q: seq<Row>)
    requires UniqueIds(raw) && RootPath(raw, p) && RootPath(raw, q)
    requires EndPointer(p) == EndPointer(q)
    ensures p == q
  {
    if p == [] || q == [] {
    } else {
      var a, b := p[|p| - 1], q[|q| - 1];
      SameIdSameRow(raw, a, b);
      var p', q' := p[..|p| - 1], q[..|q| - 1];
      assert EndPointer(p') == a.parentId && EndPointer(q') == b.parentId;
      RootPathIsUnique(raw, p', q');
      assert p == p' + [a] && q == q' + [b];
    }
  }

  lemma {:induction false} RootPathHasNoRepeats(raw: seq<Row>, p: seq<Row>, i: nat, j: nat)
    requires UniqueIds(raw) && RootPath(raw, p) && i < j < |p|
    ensures p[i] != p[j]
  {
    if p[i] == p[j] {
      RootPathIsUnique(raw, p[..i + 1], p[..j + 1]);
    }
  }

  lemma {:induction false} DistinctFits(p: seq<Row>, raw: seq<Row>)
    requires forall r <- p :: r in raw
    requires forall i, j | 0 <= i < j < |p| :: p[i] != p[j]
    ensures |p| <= |raw|
  {
    if p == [] {
    } else {
      assert p[0] in p;
      var k :| 0 <= k < |raw| && raw[k] == p[0];
      var rest := raw[..k] + raw[k + 1..];
      forall r | r in p[1..]
        ensures r in rest
      {
        assert r in p;
        var m :| 0 <= m < |raw| && raw[m] == r;
        assert m != k;
        assert rest[if m < k then m else m - 1] == r;
      }
      DistinctFits(p[1..], rest);
    }
  }

  lemma RootPathIsShort(raw: seq<Row>, p: seq<Row>)
    requires UniqueIds(raw) && RootPath(raw, p)
    ensures |p| <= |raw|
  {
    forall i, j | 0 <= i < j < |p| ensures p[i] != p[j] { RootPathHasNoRepeats(raw, p, i, j); }
    DistinctFits(p, raw);
  }

  lemma {:induction false} BuildAllFits(raw: seq<Row>, path: seq<Row>, rows: seq<Row>, depth: nat)
    requires UniqueIds(raw) && RootPath(raw, path) && |path| + depth > |raw| && depth > 0
    requires forall r <- rows :: r in raw && r.parentId == EndPointer(path)
    ensures BuildAll(raw, rows, depth).Some?
    decreases depth - 1, 1, |rows|
  {
    if rows == [] {
    } else {
      assert rows[0] in rows;
      assert RootPath(raw, path + [rows[0]]);
      BuildFits(raw, path + [rows[0]], depth - 1);
      BuildAllFits(raw, path, rows[1..], depth);
    }
  }

  lemma {:induction false} BuildFits(raw: seq<Row>, path: seq<Row>, depth: nat)
    requires UniqueIds(raw) && RootPath(raw, path) && |path| + depth > |raw|
    ensures Build(raw, EndPointer(path), depth).Some?
    decreases depth, 0, 0
  {
    RootPathIsShort(raw, path);
    var rows := ChildrenOf(raw, EndPointer(path));
    ChildrenOfMembers(raw, EndPointer(path));
    BuildAllFits(raw, path, rows, depth);
  }

  /** On any pointers, dangling and cyclic ones included, one frame per row and one more suffices. */
  lemma BuildTerminates(raw: seq<Row>)
    requires UniqueIds(raw)
    ensures Build(raw, None, |raw| + 1).Some?
  {
    BuildFits(raw, [], |raw| + 1);
  }

  // ---------------------------------------------------------------------------
  // What the forest holds
  // ---------------------------------------------------------------------------

  /** Every tree position in preorder, given as the rows from the top down to it. */
  ghost function Positions(forest: seq<Tree>, above: seq<Row>): seq<seq<Row>> {
    if forest == [] then []
    else
      var here := above + [forest[0].row];
      [here] + Positions(forest[0].children, here) + Positions(forest[1..], above)
  }

  lemma {:induction false} PositionsExtend(forest: seq<Tree>, above: seq<Row>)
    ensures forall p <- Positions(forest, above) :: |p| > |above| && p[..|above|] == above
  {
    if forest == [] {
    } else {
      var here := above + [forest[0].row];
      PositionsExtend(forest[0].children, here);
      PositionsExtend(forest[1..], above);
      forall p | p in Positions(forest[0].children, here)
        ensures p[..|above|] == above
      {
        assert p[..|above|] == p[..|here|][..|above|];
      }
    }
  }

  lemma PrefixStep(path: seq<Row>, r: Row, p: seq<Row>)
    ensures (p == path + [r] || (|p| > |path + [r]| && p[..|path + [r]|] == path + [r]))
       <==> |p| > |path| && p[..|path|] == path && p[|path|] == r
  {
    var here := path + [r];
    if |p| > |path| {
      assert p[..|path| + 1] == p[..|path|] + [p[|path|]];
      if p[..|here|] == here {
        assert p[..|path|] == here[..|path|] && p[|path|] == here[|path|];
      }
      assert |p| == |here| ==> p[..|here|] == p;
    }
  }

  lemma {:induction false} BuildAllPositions(raw: seq<Row>, path: seq<Row>, rows: seq<Row>, depth: nat, p: seq<Row>)
    requires RootPath(raw, path) && depth > 0 && BuildAll(raw, rows, depth).Some?
    requires forall r <- rows :: r in raw && r.parentId == EndPointer(path)
    ensures p in Positions(BuildAll(raw, rows, depth).value, path)
       <==> RootPath(raw, p) && |p| > |path| && p[..|path|] == path && p[|path|] in rows
    decreases depth - 1, 1, |rows|
  {
    if rows == [] {
    } else {
      var r := rows[0];
      var here := path + [r];
      assert r in rows;
      assert RootPath(raw, here);
      BuildPositions(raw, here, depth - 1, p);
      BuildAllPositions(raw, path, rows[1..], depth, p);
      assert rows == [r] + rows[1..];
      PrefixStep(path, r, p);
    }
  }

  /** The positions below `path` are exactly the root paths that continue it. */
  lemma {:induction false} BuildPositions(raw: seq<Row>, path: seq<Row>, depth: nat, p: seq<Row>)
    requires RootPath(raw, path) && Build(raw, EndPointer(path), depth).Some?
    ensures p in Positions(Build(raw, EndPointer(path), depth).value, path)
       <==> RootPath(raw, p) && |p| > |path| && p[..|path|] == path
    decreases depth, 0, 0
  {
    var rows := ChildrenOf(raw, EndPointer(path));
    ChildrenOfMembers(raw, EndPointer(path));
    BuildAllPositions(raw, path, rows, depth, p);
    if RootPath(raw, p) && |p| > |path| && p[..|path|] == path {
      var r := p[|path|];
      assert r in raw;
      assert path != [] ==> p[|path| - 1] == path[|path| - 1];
      assert r in rows;
    }
  }

  ghost predicate Distinct<T>(s: seq<T>) {
    forall i, j | 0 <= i < j < |s| :: s[i] != s[j]
  }

  lemma DistinctConcat<T>(a: seq<T>, b: seq<T>)
    requires Distinct(a) && Distinct(b) && forall x <- a :: x !in b
    ensures Distinct(a + b)
  {
    forall i, j | 0 <= i < j < |a + b| ensures (a + b)[i] != (a + b)[j] {
      if i < |a| <= j { assert (a + b)[i] in a && (a + b)[j] in b; }
    }
  }

  /** Siblings carry different rows, everywhere in the forest. */
  ghost predicate WellSpread(forest: seq<Tree>) {
    && (forall i, j | 0 <= i < j < |forest| :: forest[i].row != forest[j].row)
    && (forall t <- forest :: WellSpread(t.children))
  }

  lemma {:induction false} HeadsOf(forest: seq<Tree>, above: seq<Row>)
    ensures forall p <- Positions(forest, above) :: |p| > |above| && exists t <- forest :: p[|above|] == t.row
  {
    PositionsExtend(forest, above);
    if forest == [] {
    } else {
      var here := above + [forest[0].row];
      PositionsExtend(forest[0].children, here);
      HeadsOf(forest[1..], above);
      forall p | p in Positions(forest, above)
        ensures exists t <- forest :: p[|above|] == t.row
      {
        if p in Positions(forest[1..], above) {
          var t :| t in forest[1..] && p[|above|] == t.row;
          assert t in forest;
        } else {
          assert p[..|here|] == here;
          assert p[|above|] == here[|above|];
          assert forest[0] in forest;
        }
      }
    }
  }

  lemma {:induction false} PositionsDistinct(forest: seq<Tree>, above: seq<Row>)
    requires WellSpread(forest)
    ensures Distinct(Positions(forest, above))
  {
    if forest == [] {
    } else {
      var here := above + [forest[0].row];
      var inner, outer := Positions(forest[0].children, here), Positions(forest[1..], above);
      assert forest[0] in forest;
      assert forall t <- forest[1..] :: t in forest;
      PositionsDistinct(forest[0].children, here);
      PositionsDistinct(forest[1..], above);
      PositionsExtend(forest[0].children, here);
      DistinctConcat([here], inner);
      HeadsOf(forest[1..], above);
      forall p | p in [here] + inner
        ensures p !in outer
      {
        PrefixStep(above, forest[0].row, p);
        assert p[|above|] == forest[0].row;
      }
      DistinctConcat([here] + inner, outer);
    }
  }

  lemma SpreadInFront(t: Tree, rest: seq<Tree>)
    requires WellSpread(t.children) && WellSpread(rest) && forall i | 0 <= i < |rest| :: rest[i].row != t.row
    ensures WellSpread([t] + rest)
  {
    var all := [t] + rest;
    forall s | s in all ensures WellSpread(s.children) { assert s == t || s in rest; }
  }

  lemma {:induction false} BuildAllIsWellSpread(raw: seq<Row>, rows: seq<Row>, depth: nat)
    requires UniqueIds(raw) && UniqueIds(rows) && depth > 0 && BuildAll(raw, rows, depth).Some?
    ensures var forest := BuildAll(raw, rows, depth).value;
            && WellSpread(forest) && |forest| == |rows|
            && forall i | 0 <= i < |rows| :: forest[i].row == rows[i]
    decreases depth - 1, 1, |rows|
  {
    if rows == [] {
    } else {
      BuildIsWellSpread(raw, Some(rows[0].id), depth - 1);
      BuildAllIsWellSpread(raw, rows[1..], depth);
      var kids, rest := Build(raw, Some(rows[0].id), depth - 1).value, BuildAll(raw, rows[1..], depth).value;
      SpreadInFront(Tree(rows[0], kids), rest);
    }
  }

  lemma {:induction false} BuildIsWellSpread(raw: seq<Row>, parent: Option<string>, depth: nat)
    requires UniqueIds(raw) && Build(raw, parent, depth).Some?
    ensures WellSpread(Build(raw, parent, depth).value)
    decreases depth, 0, 0
  {
    ChildrenOfUnique(raw, parent);
    BuildAllIsWellSpread(raw, ChildrenOf(raw, parent), depth);
  }

  ghost function RowsOf(positions: seq<seq<Row>>): seq<Row>
    requires forall p <- positions :: p != []
  {
    seq(|positions|, i requires 0 <= i < |positions| =>
      assert positions[i] in positions; positions[i][|positions[i]| - 1])
  }

  lemma RowsAreDistinct(raw: seq<Row>, positions: seq<seq<Row>>)
    requires UniqueIds(raw) && Distinct(positions)
    requires forall p <- positions :: RootPath(raw, p) && p != []
    ensures Distinct(RowsOf(positions))
  {
    var rows := RowsOf(positions);
    forall i, j | 0 <= i < j < |rows|
      ensures rows[i] != rows[j]
    {
      assert positions[i] in positions && positions[j] in positions;
      if rows[i] == rows[j] { RootPathIsUnique(raw, positions[i], positions[j]); }
    }
  }

  lemma RowsAreRooted(raw: seq<Row>, positions: seq<seq<Row>>, r: Row)
    requires forall p :: p in positions <==> RootPath(raw, p) && p != []
    ensures r in RowsOf(positions) <==> Rooted(raw, r)
  {
    var rows := RowsOf(positions);
    if r in rows {
      var i :| 0 <= i < |rows| && rows[i] == r;
      assert positions[i] in positions;
    }
    if Rooted(raw, r) {
      var p :| RootPath(raw, p) && p != [] && p[|p| - 1] == r;
      assert p in positions;
      var i :| 0 <= i < |positions| && positions[i] == p;
      assert rows[i] == r;
    }
  }

  /** The forest holds every row whose parent chain reaches the top, once, and no other row. */
  lemma ForestHoldsRootedRowsOnce(raw: seq<Row>)
    requires UniqueIds(raw)
    ensures Build(raw, None, |raw| + 1).Some?
    ensures var positions := Positions(Build(raw, None, |raw| + 1).value, []);
            && (forall p <- positions :: p != [])
            && Distinct(RowsOf(positions))
            && forall r :: r in RowsOf(positions) <==> Rooted(raw, r)
  {
    BuildTerminates(raw);
    var forest := Build(raw, None, |raw| + 1).value;
    var positions := Positions(forest, []);
    assert EndPointer([]) == None;
    forall p ensures p in positions <==> RootPath(raw, p) && p != [] {
      BuildPositions(raw, [], |raw| + 1, p);
    }
    BuildIsWellSpread(raw, None, |raw| + 1);
    PositionsDistinct(forest, []);
    var rows := RowsOf(positions);
    RowsAreDistinct(raw, positions);
    forall r ensures r in rows <==> Rooted(raw, r) { RowsAreRooted(raw, positions, r); }
  }

  // ---------------------------------------------------------------------------
  // Flattening under a collapse set
  // ---------------------------------------------------------------------------

  function Flat(forest: seq<Tree>, collapsed: set<string>): seq<string> {
    if forest == [] then []
    else
      var t := forest[0];
      [t.row.id] + (if t.row.id in collapsed then [] else Flat(t.children, collapsed)) + Flat(forest[1..], collapsed)
  }

  function Below(t: Tree, collapsed: set<string>): seq<string> {
    if t.row.id in collapsed then [] else Flat(t.children, collapsed)
  }

  lemma FlatParts(forest: seq<Tree>, collapsed: set<string>)
    requires forest != []
    ensures Flat(forest, collapsed)
         == [forest[0].row.id] + Below(forest[0], collapsed) + Flat(forest[1..], collapsed)
  {
  }

  lemma WalkStep(items: seq<Tree>, i: nat, collapsed: set<string>, before: seq<string>)
    requires i < |items|
    ensures before + [items[i].row.id] + Below(items[i], collapsed) + Flat(items[i + 1..], collapsed)
         == before + Flat(items[i..], collapsed)
  {
    assert items[i..][1..] == items[i + 1..];
    FlatParts(items[i..], collapsed);
  }

  /** The recursive walk of the source, pushing onto one list. */
  method WalkTrees(items: seq<Tree>, collapsed: set<string>, start: seq<string>) returns (flat: seq<string>)
    ensures flat == start + Flat(items, collapsed)
    decreases items
  {
    flat := start;
    var i := 0;
    while i < |items|
      invariant 0 <= i <= |items|
      invariant flat + Flat(items[i..], collapsed) == start + Flat(items, collapsed)
    {
      var item := items[i];
      ghost var before := flat;
      WalkStep(items, i, collapsed, before);
      flat := flat + [item.row.id];
      if item.row.id !in collapsed {
        flat := WalkTrees(item.children, collapsed, flat);
      }
      assert flat == before + [item.row.id] + Below(item, collapsed);
      i := i + 1;
    }
  }

  ghost predicate NoCollapsed(rows: seq<Row>, collapsed: set<string>) {
    forall i | 0 <= i < |rows| :: rows[i].id !in collapsed
  }

  /** Ids of the positions none of whose proper ancestors is collapsed. */
  ghost function VisibleIds(positions: seq<seq<Row>>, collapsed: set<string>): seq<string> {
    if positions == [] then []
    else
      var p := positions[0];
      (if p != [] && NoCollapsed(p[..|p| - 1], collapsed) then [p[|p| - 1].id] else [])
      + VisibleIds(positions[1..], collapsed)
  }

  lemma {:induction false} VisibleIdsConcat(a: seq<seq<Row>>, b: seq<seq<Row>>, collapsed: set<string>)
    ensures VisibleIds(a + b, collapsed) == VisibleIds(a, collapsed) + VisibleIds(b, collapsed)
  {
    if a == [] {
      assert a + b == b;
    } else {
      assert (a + b)[1..] == a[1..] + b;
      VisibleIdsConcat(a[1..], b, collapsed);
    }
  }

  lemma HiddenBelow(p: seq<Row>, above: seq<Row>, collapsed: set<string>)
    requires !NoCollapsed(above, collapsed) && |p| > |above| && p[..|above|] == above
    ensures !NoCollapsed(p[..|p| - 1], collapsed)
  {
    var i :| 0 <= i < |above| && above[i].id in collapsed;
    assert p[..|above|][i] == above[i];
    assert p[..|p| - 1][i] == above[i];
  }

  lemma {:induction false} NothingBelowCollapsed(positions: seq<seq<Row>>, above: seq<Row>, collapsed: set<string>)
    requires !NoCollapsed(above, collapsed)
    requires forall p <- positions :: |p| > |above| && p[..|above|] == above
    ensures VisibleIds(positions, collapsed) == []
  {
    if positions == [] {
    } else {
      var p := positions[0];
      assert p in positions;
      HiddenBelow(p, above, collapsed);
      NothingBelowCollapsed(positions[1..], above, collapsed);
    }
  }

  /** The flattening is the preorder restricted to rows without a collapsed proper ancestor. */
  lemma {:induction false} FlatIsVisiblePreorder(forest: seq<Tree>, above: seq<Row>, collapsed: set<string>)
    requires NoCollapsed(above, collapsed)
    ensures Flat(forest, collapsed) == VisibleIds(Positions(forest, above), collapsed)
  {
    if forest == [] {
    } else {
      var t := forest[0];
      var here := above + [t.row];
      var inner, outer := Positions(t.children, here), Positions(forest[1..], above);
      VisibleIdsConcat([here] + inner, outer, collapsed);
      VisibleIdsConcat([here], inner, collapsed);
      assert here[..|here| - 1] == above;
      if t.row.id in collapsed {
        PositionsExtend(t.children, here);
        assert here[|above|].id in collapsed;
        NothingBelowCollapsed(inner, here, collapsed);
      } else {
        FlatIsVisiblePreorder(t.children, here, collapsed);
      }
      FlatIsVisiblePreorder(forest[1..], above, collapsed);
    }
  }

  lemma {:induction false} VisibleIdsOfAll(positions: seq<seq<Row>>)
    requires forall p <- positions :: p != []
    ensures |VisibleIds(positions, {})| == |positions|
    ensures forall i | 0 <= i < |positions| :: VisibleIds(positions, {})[i] == RowsOf(positions)[i].id
  {
    if positions == [] {
    } else {
      assert positions[0] in positions;
      assert forall p <- positions[1..] :: p in positions;
      VisibleIdsOfAll(positions[1..]);
    }
  }

  lemma FlatIdsDistinct(raw: seq<Row>)
    requires UniqueIds(raw)
    ensures Build(raw, None, |raw| + 1).Some? && Distinct(Flat(Build(raw, None, |raw| + 1).value, {}))
  {
    ForestHoldsRootedRowsOnce(raw);
    var forest := Build(raw, None, |raw| + 1).value;
    var positions := Positions(forest, []);
    FlatIsVisiblePreorder(forest, [], {});
    VisibleIdsOfAll(positions);
    var rows, ids := RowsOf(positions), Flat(forest, {});
    forall i, j | 0 <= i < j < |ids|
      ensures ids[i] != ids[j]
    {
      assert rows[i] in rows && rows[j] in rows;
      if ids[i] == ids[j] { SameIdSameRow(raw, rows[i], rows[j]); }
    }
  }

  /** Collapses an open node and opens a collapsed one. */
  function Toggle(collapsed: set<string>, id: string): set<string> {
    if id in collapsed then collapsed - {id} else collapsed + {id}
  }

  lemma {:induction false} FlatShowsOnlyIds(forest: seq<Tree>, collapsed: set<string>)
    ensures forall id <- Flat(forest, collapsed) :: id in Flat(forest, {})
  {
    if forest == [] {
    } else {
      FlatShowsOnlyIds(forest[0].children, collapsed);
      FlatShowsOnlyIds(forest[1..], collapsed);
    }
  }

  /** Two collapse sets that differ at most in `id`. */
  ghost predicate AgreeExcept(c: set<string>, d: set<string>, id: string) {
    forall x | x != id :: x in c <==> x in d
  }

  lemma {:induction false} FlatElsewhere(forest: seq<Tree>, c: set<string>, d: set<string>, id: string)
    requires id !in Flat(forest, {}) && AgreeExcept(c, d, id)
    ensures Flat(forest, d) == Flat(forest, c)
  {
    if forest == [] {
    } else {
      assert id != forest[0].row.id by { FlatParts(forest, {}); }
      FlatElsewhere(forest[0].children, c, d, id);
      FlatElsewhere(forest[1..], c, d, id);
    }
  }

  ghost predicate SamePrefix<T>(a: seq<T>, b: seq<T>, n: nat) {
    n <= |a| && n <= |b| && a[..n] == b[..n]
  }

  ghost predicate Apart(forest: seq<Tree>)
    requires forest != []
  {
    var id, below, after := forest[0].row.id, Flat(forest[0].children, {}), Flat(forest[1..], {});
    id !in below && id !in after && forall x <- below :: x !in after
  }

  /** No id occurs twice, told tree by tree. */
  ghost predicate Spread(forest: seq<Tree>) {
    forest == [] || (Apart(forest) && Spread(forest[0].children) && Spread(forest[1..]))
  }

  lemma SplitDistinct<T>(x: T, a: seq<T>, b: seq<T>)
    requires Distinct([x] + a + b)
    ensures Distinct(a) && Distinct(b) && x !in a && x !in b && forall y <- a :: y !in b
  {
    var s := [x] + a + b;
    assert forall i | 0 <= i < |a| :: s[i + 1] == a[i];
    assert forall i | 0 <= i < |b| :: s[i + 1 + |a|] == b[i];
    assert s[0] == x;
  }

  lemma HeadIsApart(forest: seq<Tree>)
    requires forest != [] && Distinct(Flat(forest, {}))
    ensures Distinct(Flat(forest[0].children, {})) && Distinct(Flat(forest[1..], {}))
    ensures Apart(forest)
  {
    SplitDistinct(forest[0].row.id, Flat(forest[0].children, {}), Flat(forest[1..], {}));
  }

  lemma {:induction false} DistinctIsSpread(forest: seq<Tree>)
    requires Distinct(Flat(forest, {}))
    ensures Spread(forest)
  {
    if forest == [] {
    } else {
      HeadIsApart(forest);
      DistinctIsSpread(forest[0].children);
      DistinctIsSpread(forest[1..]);
    }
  }

  lemma SameTop(forest: seq<Tree>, c: set<string>, d: set<string>)
    requires forest != []
    ensures SamePrefix(Flat(forest, c), Flat(forest, d), 1)
  {
    assert Flat(forest, c)[..1] == [forest[0].row.id];
    assert Flat(forest, d)[..1] == [forest[0].row.id];
  }

  /** A row other than the first is below the first tree's top or in a later tree. */
  lemma WhereIs(forest: seq<Tree>, collapsed: set<string>, i: nat)
    requires 0 < i < |Flat(forest, collapsed)|
    ensures var inner := Below(forest[0], collapsed);
            if i <= |inner| then Flat(forest, collapsed)[i] == inner[i - 1]
            else i - 1 - |inner| < |Flat(forest[1..], collapsed)|
                 && Flat(forest, collapsed)[i] == Flat(forest[1..], collapsed)[i - 1 - |inner|]
  {
    FlatParts(forest, collapsed);
  }

  lemma SameFront<T>(x: T, a: seq<T>, a': seq<T>, b: seq<T>, b': seq<T>, i: nat)
    requires SamePrefix(a, a', i)
    ensures SamePrefix([x] + a + b, [x] + a' + b', i + 1)
  {
    assert ([x] + a + b)[..i + 1] == [x] + a[..i];
    assert ([x] + a' + b')[..i + 1] == [x] + a'[..i];
  }

  lemma FrontStep(forest: seq<Tree>, c: set<string>, d: set<string>, n: nat)
    requires forest != [] && SamePrefix(Below(forest[0], c), Below(forest[0], d), n)
    ensures SamePrefix(Flat(forest, c), Flat(forest, d), n + 1)
  {
    FlatParts(forest, c);
    FlatParts(forest, d);
    SameFront(forest[0].row.id, Below(forest[0], c), Below(forest[0], d),
              Flat(forest[1..], c), Flat(forest[1..], d), n);
  }

  lemma {:induction false} SameInFirstTree(forest: seq<Tree>, c: set<string>, d: set<string>, k: nat, id: string)
    requires forest != [] && k < |Below(forest[0], c)| && Below(forest[0], c)[k] == id && AgreeExcept(c, d, id)
    requires Spread(forest)
    ensures SamePrefix(Flat(forest, c), Flat(forest, d), k + 2)
    decreases forest, 0
  {
    var t := forest[0];
    FlatShowsOnlyIds(t.children, c);
    SameUpTo(t.children, c, d, k, id);
    FrontStep(forest, c, d, k + 1);
  }

  lemma SameBack<T>(x: T, a: seq<T>, b: seq<T>, b': seq<T>, k: nat)
    requires SamePrefix(b, b', k + 1)
    ensures SamePrefix([x] + a + b, [x] + a + b', 1 + |a| + k + 1)
  {
    assert ([x] + a + b)[..1 + |a| + k + 1] == [x] + a + b[..k + 1];
    assert ([x] + a + b')[..1 + |a| + k + 1] == [x] + a + b'[..k + 1];
  }

  lemma BackStep(forest: seq<Tree>, c: set<string>, d: set<string>, k: nat)
    requires forest != [] && Below(forest[0], c) == Below(forest[0], d)
    requires SamePrefix(Flat(forest[1..], c), Flat(forest[1..], d), k + 1)
    ensures SamePrefix(Flat(forest, c), Flat(forest, d), 1 + |Below(forest[0], c)| + k + 1)
  {
    FlatParts(forest, c);
    FlatParts(forest, d);
    SameBack(forest[0].row.id, Below(forest[0], c), Flat(forest[1..], c), Flat(forest[1..], d), k);
  }

  lemma BelowUnchanged(t: Tree, c: set<string>, d: set<string>, id: string)
    requires id != t.row.id && id !in Flat(t.children, {}) && AgreeExcept(c, d, id)
    ensures Below(t, d) == Below(t, c)
  {
    FlatElsewhere(t.children, c, d, id);
  }

  lemma {:induction false} SameInLaterTree(forest: seq<Tree>, c: set<string>, d: set<string>, k: nat, id: string)
    requires forest != [] && k < |Flat(forest[1..], c)| && Flat(forest[1..], c)[k] == id && AgreeExcept(c, d, id)
    requires Spread(forest)
    ensures SamePrefix(Flat(forest, c), Flat(forest, d), 1 + |Below(forest[0], c)| + k + 1)
    decreases forest, 0
  {
    FlatShowsOnlyIds(forest[1..], c);
    BelowUnchanged(forest[0], c, d, id);
    SameUpTo(forest[1..], c, d, k, id);
    BackStep(forest, c, d, k);
  }

  lemma {:induction false} SameUpTo(forest: seq<Tree>, c: set<string>, d: set<string>, i: nat, id: string)
    requires Spread(forest) && i < |Flat(forest, c)| && Flat(forest, c)[i] == id
    requires AgreeExcept(c, d, id)
    ensures SamePrefix(Flat(forest, c), Flat(forest, d), i + 1)
    decreases forest, 1
  {
    if i == 0 {
      SameTop(forest, c, d);
    } else {
      var inner := |Below(forest[0], c)|;
      WhereIs(forest, c, i);
      if i <= inner {
        SameInFirstTree(forest, c, d, i - 1, id);
        assert SamePrefix(Flat(forest, c), Flat(forest, d), i + 1);
      } else {
        SameInLaterTree(forest, c, d, i - 1 - inner, id);
        assert SamePrefix(Flat(forest, c), Flat(forest, d), i + 1);
      }
    }
  }

  /** Toggling a visible node moves neither it nor anything above it. */
  lemma ToggleKeepsRow(forest: seq<Tree>, collapsed: set<string>, i: nat, id: string)
    requires Distinct(Flat(forest, {})) && i < |Flat(forest, collapsed)| && Flat(forest, collapsed)[i] == id
    ensures SamePrefix(Flat(forest, collapsed), Flat(forest, Toggle(collapsed, id)), i + 1)
  {
    DistinctIsSpread(forest);
    SameUpTo(forest, collapsed, Toggle(collapsed, id), i, id);
  }
}
