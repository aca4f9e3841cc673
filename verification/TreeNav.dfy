/**
 The cursor over the flattened tree (src/tui/vim-nav.ts), driven together with the collapse set
 (src/tui/interactive-app.tsx:184-194, 539-546).
 */
module TreeNav {
  import opened Prelude
  import opened Forest

  datatype NavState = NavState(cursor: int, count: int)
  datatype Key = Down | Up | First | Last

  function Min(a: int, b: int): int { if a < b then a else b }
  function Max(a: int, b: int): int { if a > b then a else b }

  function Init(count: int, initialCursor: int): NavState {
    if count <= 0 then NavState(0, 0) else NavState(Max(0, Min(initialCursor, count - 1)), count)
  }

  function HandleKey(s: NavState, key: Key): NavState {
    if s.count <= 0 then s
    else
      match key
      case Down => s.(cursor := Min(s.cursor + 1, s.count - 1))
      case Up => s.(cursor := Max(s.cursor - 1, 0))
      case First => s.(cursor := 0)
      case Last => s.(cursor := s.count - 1)
  }

  function UpdateCount(s: NavState, newCount: int): NavState {
    if newCount <= 0 then NavState(0, 0) else NavState(Min(s.cursor, newCount - 1), newCount)
  }

  datatype Event = Press(key: Key) | Click(id: string)
  datatype View = View(collapsed: set<string>, nav: NavState)

  /** A key moves the cursor; a click toggles a node and then syncs the count. */
  function Step(forest: seq<Tree>, v: View, e: Event): View {
    match e
    case Press(key) => v.(nav := HandleKey(v.nav, key))
    case Click(id) =>
      var collapsed := Toggle(v.collapsed, id);
      View(collapsed, UpdateCount(v.nav, |Flat(forest, collapsed)|))
  }

  function RunView(forest: seq<Tree>, v: View, events: seq<Event>): View
    decreases |events|
  {
    if events == [] then v else RunView(forest, Step(forest, v, events[0]), events[1..])
  }

  /** The count is the number of visible rows and the cursor addresses one of them, if any. */
  ghost predicate Synced(forest: seq<Tree>, v: View) {
    && v.nav.count == |Flat(forest, v.collapsed)|
    && 0 <= v.nav.cursor
    && (v.nav.count == 0 ==> v.nav.cursor == 0)
    && (v.nav.count > 0 ==> v.nav.cursor < v.nav.count)
  }

  /** From any view in step with the tree, no run of keys and clicks moves the cursor off the visible rows. */
  lemma {:induction false} CursorStaysOnRows(forest: seq<Tree>, v: View, events: seq<Event>)
    requires Synced(forest, v)
    ensures Synced(forest, RunView(forest, v, events))
    decreases |events|
  {
    if events == [] {
    } else {
      CursorStaysOnRows(forest, Step(forest, v, events[0]), events[1..]);
    }
  }

  /** A key moves the cursor one row or to an end, and never past the first or the last row. */
  lemma KeysMoveTheCursor(s: NavState)
    requires 0 <= s.cursor < s.count
    ensures HandleKey(s, Down) == NavState(if s.cursor == s.count - 1 then s.cursor else s.cursor + 1, s.count)
    ensures HandleKey(s, Up) == NavState(if s.cursor == 0 then 0 else s.cursor - 1, s.count)
    ensures HandleKey(s, First) == NavState(0, s.count)
    ensures HandleKey(s, Last) == NavState(s.count - 1, s.count)
  {
  }

  /** `n` times the same key. */
  function Presses(key: Key, n: nat): seq<Event> {
    if n == 0 then [] else [Press(key)] + Presses(key, n - 1)
  }

  lemma {:induction false} ManyPresses(forest: seq<Tree>, v: View, n: nat)
    requires 0 <= v.nav.cursor < v.nav.count
    ensures v.nav.cursor + n < v.nav.count ==>
              RunView(forest, v, Presses(Down, n)) == v.(nav := v.nav.(cursor := v.nav.cursor + n))
    ensures n <= v.nav.cursor ==>
              RunView(forest, v, Presses(Up, n)) == v.(nav := v.nav.(cursor := v.nav.cursor - n))
    decreases n
  {
    KeysMoveTheCursor(v.nav);
    if n == 0 {
    } else {
      var down, up := v.(nav := HandleKey(v.nav, Down)), v.(nav := HandleKey(v.nav, Up));
      assert Presses(Down, n)[1..] == Presses(Down, n - 1) && Presses(Up, n)[1..] == Presses(Up, n - 1);
      ManyPresses(forest, down, n - 1);
      ManyPresses(forest, up, n - 1);
    }
  }

  /** First and `k` times down is row `k`, from anywhere, and last and `k` times up is as far from the end. */
  lemma EveryRowIsReached(forest: seq<Tree>, v: View, k: nat)
    requires Synced(forest, v) && k < v.nav.count
    ensures RunView(forest, v, [Press(First)] + Presses(Down, k)) == v.(nav := NavState(k, v.nav.count))
    ensures RunView(forest, v, [Press(Last)] + Presses(Up, k)) == v.(nav := NavState(v.nav.count - 1 - k, v.nav.count))
  {
    KeysMoveTheCursor(v.nav);
    assert ([Press(First)] + Presses(Down, k))[1..] == Presses(Down, k);
    assert ([Press(Last)] + Presses(Up, k))[1..] == Presses(Up, k);
    ManyPresses(forest, v.(nav := NavState(0, v.nav.count)), k);
    ManyPresses(forest, v.(nav := NavState(v.nav.count - 1, v.nav.count)), k);
  }

  /**
   The cursor starts at the row asked for, or at the nearest one there is. A click keeps it on its
   line, or on the last one when there are fewer now; an empty list has it at zero and ignores keys.
   */
  lemma CursorStaysPut(forest: seq<Tree>, v: View, count: int, start: int, key: Key, id: string)
    requires Synced(forest, v)
    ensures count <= 0 ==> Init(count, start) == NavState(0, 0)
    ensures 0 <= start < count ==> Init(count, start) == NavState(start, count)
    ensures start < 0 < count ==> Init(count, start) == NavState(0, count)
    ensures 0 < count <= start ==> Init(count, start) == NavState(count - 1, count)
    ensures var after := Step(forest, v, Click(id));
            var lines := |Flat(forest, after.collapsed)|;
            && after.nav.count == lines
            && after.nav.cursor == if v.nav.cursor < lines then v.nav.cursor else if lines == 0 then 0 else lines - 1
    ensures v.nav.count == 0 ==> Step(forest, v, Press(key)) == v
  {
  }

  lemma InitIsSynced(forest: seq<Tree>, collapsed: set<string>, initialCursor: int)
    ensures Synced(forest, View(collapsed, Init(|Flat(forest, collapsed)|, initialCursor)))
  {
  }

  /** Opened at any start cursor, the view stays in step with the tree over any run of keys and clicks. */
  lemma OpenedViewStaysSynced(forest: seq<Tree>, collapsed: set<string>, initialCursor: int, events: seq<Event>)
    ensures var start := View(collapsed, Init(|Flat(forest, collapsed)|, initialCursor));
            Synced(forest, RunView(forest, start, events))
  {
    InitIsSynced(forest, collapsed, initialCursor);
    CursorStaysOnRows(forest, View(collapsed, Init(|Flat(forest, collapsed)|, initialCursor)), events);
  }

  /** Clicking the selected node of a built forest keeps the cursor and the row under it. */
  lemma ClickKeepsSelection(raw: seq<Row>, v: View)
    requires UniqueIds(raw) && Build(raw, None, |raw| + 1).Some?
    requires Synced(Build(raw, None, |raw| + 1).value, v) && v.nav.count > 0
    ensures var forest := Build(raw, None, |raw| + 1).value;
            var id := Flat(forest, v.collapsed)[v.nav.cursor];
            var after := Step(forest, v, Click(id));
            && after.nav.cursor == v.nav.cursor
            && after.nav.cursor < |Flat(forest, after.collapsed)|
            && Flat(forest, after.collapsed)[after.nav.cursor] == id
  {
    var forest := Build(raw, None, |raw| + 1).value;
    FlatIdsDistinct(raw);
    var before := Flat(forest, v.collapsed);
    var id := before[v.nav.cursor];
    ToggleKeepsRow(forest, v.collapsed, v.nav.cursor, id);
    var after := Flat(forest, Toggle(v.collapsed, id));
    assert after[..v.nav.cursor + 1][v.nav.cursor] == before[..v.nav.cursor + 1][v.nav.cursor];
  }

  /**
   A click collapses an open node or opens a collapsed one, and no other. Two clicks on the same node,
   wherever the cursor is, bring the collapse set back.
   */
  lemma TwoClicksRestore(forest: seq<Tree>, v: View, id: string)
    ensures forall x :: x in Step(forest, v, Click(id)).collapsed <==>
                        if x == id then x !in v.collapsed else x in v.collapsed
    ensures RunView(forest, v, [Click(id), Click(id)]).collapsed == v.collapsed
  {
    assert [Click(id), Click(id)][1..] == [Click(id)];
    assert RunView(forest, v, [Click(id), Click(id)])
        == RunView(forest, Step(forest, Step(forest, v, Click(id)), Click(id)), []);
    assert Toggle(Toggle(v.collapsed, id), id) == v.collapsed;
  }
}
