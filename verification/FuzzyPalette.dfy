/**
 Command palette matching (src/tui/dispatch-parsing.ts).

 The scan walks the text once and takes the first character that fits. The module proves
 that this greedy walk is optimal over every way of embedding the query in the text, and
 that the palette is the unique ranking of the matching commands.
 */
module FuzzyPalette {
  import opened Prelude

  // ---------------------------------------------------------------------------
  // Reference meaning: embeddings and their penalty
  // ---------------------------------------------------------------------------

  /** `e` places the characters of `q` at increasing positions of `t`. */
  ghost predicate Embeds(e: seq<nat>, q: string, t: string) {
    && |e| == |q|
    && (forall i | 0 <= i < |e| :: e[i] < |t| && t[e[i]] == q[i])
    && (forall i, j | 0 <= i < j < |e| :: e[i] < e[j])
  }

  ghost predicate IsSubsequence(q: string, t: string) {
    exists e: seq<nat> :: Embeds(e, q, t)
  }

  /** Lateness of the first match plus every gap between neighbouring matches. */
  ghost function Penalty(e: seq<nat>): int {
    if |e| == 0 then 0
    else if |e| == 1 then e[0]
    else Penalty(e[..|e| - 1]) + e[|e| - 1] - e[|e| - 2] - 1
  }

  lemma {:induction false} PenaltyTelescopes(e: seq<nat>)
    requires e != []
    ensures Penalty(e) == e[|e| - 1] + 1 - |e|
  {
    if |e| == 1 {
    } else {
      PenaltyTelescopes(e[..|e| - 1]);
    }
  }

  // ---------------------------------------------------------------------------
  // The shortest matching prefix
  // ---------------------------------------------------------------------------

  /** Length of the shortest prefix of `t` that contains `q` as a subsequence. */
  function Reach(q: string, t: string): Option<nat>
    decreases t
  {
    if q == [] then Some(0)
    else if t == [] then None
    else
      match Reach(if t[0] == q[0] then q[1..] else q, t[1..])
      case None => None
      case Some(n) => Some(n + 1)
  }

  ghost function Shifted(e: seq<nat>): (r: seq<nat>)
    ensures |r| == |e| && forall i | 0 <= i < |e| :: r[i] == e[i] + 1
  {
    seq(|e|, i requires 0 <= i < |e| => e[i] + 1)
  }

  /** An embedding of the rest, moved by one, behind a match at the front. */
  ghost function Behind(d: seq<nat>): seq<nat> {
    [0] + Shifted(d)
  }

  lemma BehindAt(d: seq<nat>, i: nat)
    requires i <= |d|
    ensures |Behind(d)| == |d| + 1 && Behind(d)[i] == if i == 0 then 0 else d[i - 1] + 1
  {
  }

  lemma BehindMatchesAt(d: seq<nat>, q: string, t: string, i: nat)
    requires q != "" && t != "" && t[0] == q[0] && Embeds(d, q[1..], t[1..]) && i <= |d|
    ensures |Behind(d)| == |d| + 1 && Behind(d)[i] < |t| && t[Behind(d)[i]] == q[i]
  {
    BehindAt(d, i);
    if i > 0 { assert t[1..][d[i - 1]] == q[1..][i - 1]; }
  }

  lemma EmbedBehindMatch(d: seq<nat>, q: string, t: string)
    requires q != "" && t != "" && t[0] == q[0] && Embeds(d, q[1..], t[1..])
    ensures Embeds(Behind(d), q, t)
  {
    var e := Behind(d);
    forall i | 0 <= i < |e| ensures e[i] < |t| && t[e[i]] == q[i] { BehindMatchesAt(d, q, t, i); }
    forall i, j | 0 <= i < j < |e| ensures e[i] < e[j] {
      BehindAt(d, i);
      BehindAt(d, j);
    }
  }

  lemma EmbedBehindMiss(d: seq<nat>, q: string, t: string)
    requires t != "" && Embeds(d, q, t[1..])
    ensures Embeds(Shifted(d), q, t)
  {
  }

  lemma {:induction false} ReachIsEmbedded(q: string, t: string) returns (e: seq<nat>)
    requires Reach(q, t).Some?
    ensures Embeds(e, q, t)
    ensures Reach(q, t).value == if q == [] then 0 else e[|e| - 1] + 1
    decreases t
  {
    if q == [] {
      e := [];
    } else if t[0] == q[0] {
      var d := ReachIsEmbedded(q[1..], t[1..]);
      e := Behind(d);
      EmbedBehindMatch(d, q, t);
    } else {
      var d := ReachIsEmbedded(q, t[1..]);
      e := Shifted(d);
      EmbedBehindMiss(d, q, t);
    }
  }

  ghost function Unshifted(e: seq<nat>): (r: seq<nat>)
    requires forall i | 0 <= i < |e| :: e[i] > 0
    ensures |r| == |e| && forall i | 0 <= i < |e| :: r[i] == e[i] - 1
  {
    seq(|e|, i requires 0 <= i < |e| => e[i] - 1)
  }

  lemma EmbedTailOfMatch(e: seq<nat>, q: string, t: string)
    requires q != "" && t != "" && Embeds(e, q, t)
    ensures forall i | 0 <= i < |e[1..]| :: e[1..][i] > 0
    ensures Embeds(Unshifted(e[1..]), q[1..], t[1..])
  {
    var d := e[1..];
    forall i | 0 <= i < |d| ensures d[i] > 0 && d[i] - 1 < |t[1..]| && t[1..][d[i] - 1] == q[1..][i] {
      assert d[i] == e[i + 1] && e[0] < e[i + 1];
    }
  }

  lemma EmbedTailOfMiss(e: seq<nat>, q: string, t: string)
    requires q != "" && t != "" && t[0] != q[0] && Embeds(e, q, t)
    ensures forall i | 0 <= i < |e| :: e[i] > 0
    ensures Embeds(Unshifted(e), q, t[1..])
  {
    assert e[0] > 0;
  }

  /** Every embedding ends at or after the greedy one. */
  lemma {:induction false} ReachIsEarliest(q: string, t: string, e: seq<nat>)
    requires Embeds(e, q, t)
    ensures Reach(q, t).Some?
    ensures Reach(q, t).value <= if q == [] then 0 else e[|e| - 1] + 1
    decreases t
  {
    if q == [] {
    } else {
      assert e[0] < |t|;
      if t[0] == q[0] {
        EmbedTailOfMatch(e, q, t);
        ReachIsEarliest(q[1..], t[1..], Unshifted(e[1..]));
      } else {
        EmbedTailOfMiss(e, q, t);
        ReachIsEarliest(q, t[1..], Unshifted(e));
      }
    }
  }

  lemma {:induction false} ReachCoversQuery(q: string, t: string)
    requires Reach(q, t).Some?
    ensures |q| <= Reach(q, t).value <= |t|
    decreases t
  {
    if q == [] {
    } else {
      ReachCoversQuery(if t[0] == q[0] then q[1..] else q, t[1..]);
    }
  }

  /** The score of folded strings: what the shortest prefix holds beyond the query. */
  function Score(q: string, t: string): Option<nat> {
    match Reach(q, t)
    case None => None
    case Some(n) =>
      ReachCoversQuery(q, t);
      Some(n - |q|)
  }

  // ---------------------------------------------------------------------------
  // Main results about the score
  // ---------------------------------------------------------------------------

  /** The score exists exactly for subsequences and is the minimum penalty over all embeddings. */
  lemma ScoreIsMinimalPenalty(q: string, t: string)
    ensures Score(q, t).Some? <==> IsSubsequence(q, t)
    ensures Score(q, t).Some? ==> exists e :: Embeds(e, q, t) && Penalty(e) == Score(q, t).value
    ensures Score(q, t).Some? ==> forall e | Embeds(e, q, t) :: Score(q, t).value <= Penalty(e)
  {
    if Score(q, t).Some? {
      var e := ReachIsEmbedded(q, t);
      if q != [] { PenaltyTelescopes(e); }
      assert Embeds(e, q, t) && Penalty(e) == Score(q, t).value;
    }
    forall e | Embeds(e, q, t)
      ensures Score(q, t).Some? && Score(q, t).value <= Penalty(e)
    {
      ReachIsEarliest(q, t, e);
      if q != [] { PenaltyTelescopes(e); }
    }
  }

  lemma {:induction false} EmbeddingLowerBound(e: seq<nat>, q: string, t: string, k: nat)
    requires Embeds(e, q, t) && k < |q|
    ensures e[k] >= k
  {
    if k == 0 {
    } else {
      EmbeddingLowerBound(e, q, t, k - 1);
    }
  }

  lemma {:induction false} EmbeddingWithoutSlack(e: seq<nat>, q: string, t: string, k: nat)
    requires Embeds(e, q, t) && k < |q| && e[k] == k
    ensures q[..k + 1] <= t
  {
    if k > 0 {
      assert e[k - 1] >= k - 1 by { EmbeddingLowerBound(e, q, t, k - 1); }
      EmbeddingWithoutSlack(e, q, t, k - 1);
    }
    assert q[k] == t[k];
  }

  /** A perfect score means the text starts with the query. */
  lemma ZeroScoreIffPrefix(q: string, t: string)
    ensures Score(q, t) == Some(0) <==> q <= t
  {
    if Score(q, t) == Some(0) {
      var e := ReachIsEmbedded(q, t);
      if q != [] {
        EmbeddingWithoutSlack(e, q, t, |q| - 1);
      }
    }
    if q <= t {
      var e := seq(|q|, (i: nat) => i);
      assert Embeds(e, q, t);
      ReachIsEarliest(q, t, e);
      ReachCoversQuery(q, t);
    }
  }

  lemma {:induction false} EmbeddingSpread(e: seq<nat>, q: string, t: string, i: nat, j: nat)
    requires Embeds(e, q, t) && i <= j < |q|
    ensures e[j] - e[i] >= j - i
    decreases j - i
  {
    if i == j {
    } else {
      EmbeddingSpread(e, q, t, i, j - 1);
    }
  }

  /** Typing more characters never lowers the score of a text, nor brings a lost text back. */
  lemma LongerQueryScoresNoBetter(q: string, x: string, t: string)
    requires Score(q + x, t).Some?
    ensures Score(q, t).Some? && Score(q, t).value <= Score(q + x, t).value
  {
    var e := ReachIsEmbedded(q + x, t);
    var d := e[..|q|];
    assert Embeds(d, q, t) by {
      assert forall i | 0 <= i < |d| :: (q + x)[i] == q[i];
    }
    ReachIsEarliest(q, t, d);
    if q != [] { EmbeddingSpread(e, q + x, t, |q| - 1, |q + x| - 1); }
  }

  /** What is left to match after `ti` characters of the text decides the reach of the whole query. */
  ghost predicate ReachLeft(q: string, t: string, qi: nat, ti: nat)
    requires qi <= |q| && ti <= |t|
  {
    Reach(q, t) == match Reach(q[qi..], t[ti..]) case None => None case Some(n) => Some(n + ti)
  }

  lemma ReachOneStep(q: string, t: string, qi: nat, ti: nat)
    requires qi < |q| && ti < |t| && ReachLeft(q, t, qi, ti)
    ensures ReachLeft(q, t, if t[ti] == q[qi] then qi + 1 else qi, ti + 1)
  {
    assert t[ti..][1..] == t[ti + 1..] && q[qi..][1..] == q[qi + 1..];
  }

  lemma ReachEnds(q: string, t: string, qi: nat, ti: nat)
    requires qi <= |q| && ti <= |t| && ReachLeft(q, t, qi, ti) && (qi == |q| || ti == |t|)
    ensures Reach(q, t) == if qi == |q| then Some(ti) else None
  {
  }

  /** The loop of the source computes exactly this score on the folded strings. */
  method FuzzyScore(query: string, text: string) returns (r: Option<nat>)
    ensures r == Score(Lower(query), Lower(text))
  {
    var q, t := Lower(query), Lower(text);
    if q == "" { return Some(0); }
    var qi, score, lastMatch, ti := 0, 0, -1, 0;
    while ti < |t| && qi < |q|
      invariant 0 <= qi <= |q| && 0 <= ti <= |t|
      invariant -1 <= lastMatch < ti && (lastMatch == -1 <==> qi == 0)
      invariant score == (if qi == 0 then 0 else lastMatch + 1 - qi)
      invariant qi == |q| ==> ti == lastMatch + 1
      invariant ReachLeft(q, t, qi, ti)
    {
      ReachOneStep(q, t, qi, ti);
      if t[ti] == q[qi] {
        if lastMatch == -1 { score := score + ti; } else { score := score + ti - lastMatch - 1; }
        lastMatch := ti;
        qi := qi + 1;
      }
      ti := ti + 1;
    }
    ReachEnds(q, t, qi, ti);
    if qi == |q| {
      ReachCoversQuery(q, t);
      return Some(score);
    }
    return None;
  }

  // ---------------------------------------------------------------------------
  // The palette
  // ---------------------------------------------------------------------------

  datatype Command = Command(name: string, aliases: seq<string>)
  datatype Entry = Entry(cmd: Command, score: nat, idx: nat)

  /** A command matches with score `s`: `s` is the least score among its name and aliases. */
  ghost predicate BestScore(q: string, cmd: Command, s: nat) {
    && (exists text :: text in [cmd.name] + cmd.aliases && Score(q, Lower(text)) == Some(s))
    && (forall text | text in [cmd.name] + cmd.aliases && Score(q, Lower(text)).Some? ::
          s <= Score(q, Lower(text)).value)
  }

  ghost predicate Matches(q: string, cmd: Command) {
    exists text :: text in [cmd.name] + cmd.aliases && IsSubsequence(q, Lower(text))
  }

  predicate Before(a: Entry, b: Entry) {
    a.score < b.score || (a.score == b.score && a.idx < b.idx)
  }

  ghost predicate Ordered(es: seq<Entry>) {
    forall i, j | 0 <= i < j < |es| ::
      es[i].score < es[j].score || (es[i].score == es[j].score && es[i].idx < es[j].idx)
  }

  ghost predicate Accounted(es: seq<Entry>, q: string, commands: seq<Command>, n: nat)
    requires n <= |commands|
  {
    && (forall e <- es :: e.idx < n && e.cmd == commands[e.idx] && BestScore(q, e.cmd, e.score))
    && (forall i | 0 <= i < n && Matches(q, commands[i]) :: exists e :: e in es && e.idx == i)
  }

  /** `es` lists exactly the matching commands, best score first and ties in catalogue order. */
  ghost predicate IsRanking(es: seq<Entry>, q: string, commands: seq<Command>) {
    Ordered(es) && Accounted(es, q, commands, |commands|)
  }

  function CommandsOf(es: seq<Entry>): seq<Command> {
    seq(|es|, i requires 0 <= i < |es| => es[i].cmd)
  }

  lemma BestScoreIsUnique(q: string, cmd: Command, s: nat, s': nat)
    requires BestScore(q, cmd, s) && BestScore(q, cmd, s')
    ensures s == s'
  {
  }

  lemma MatchesIffBestScore(q: string, cmd: Command)
    ensures (exists s :: BestScore(q, cmd, s)) ==> Matches(q, cmd)
  {
    if s: nat :| BestScore(q, cmd, s) {
      var text :| text in [cmd.name] + cmd.aliases && Score(q, Lower(text)) == Some(s);
      ScoreIsMinimalPenalty(q, Lower(text));
    }
  }

  lemma SameEntry(e: Entry, a: seq<Entry>, b: seq<Entry>, q: string, commands: seq<Command>)
    requires IsRanking(a, q, commands) && IsRanking(b, q, commands) && e in a
    ensures e in b
  {
    MatchesIffBestScore(q, e.cmd);
    var f :| f in b && f.idx == e.idx;
    BestScoreIsUnique(q, e.cmd, e.score, f.score);
    assert f == e;
  }

  lemma NonEmptyHasMember<T>(s: seq<T>)
    ensures s != [] ==> exists e :: e in s
  {
    if s != [] { assert s[0] in s; }
  }

  lemma {:induction false} OrderedSameMembers(a: seq<Entry>, b: seq<Entry>)
    requires Ordered(a) && Ordered(b)
    requires forall e :: e in a <==> e in b
    ensures a == b
  {
    if a == [] {
      NonEmptyHasMember(b);
    } else {
      assert a[0] in b && b[0] in a;
      assert a[0] == b[0];
      forall e ensures e in a[1..] <==> e in b[1..] {
        if e in a[1..] { assert e in b && e != b[0]; }
        if e in b[1..] { assert e in a && e != a[0]; }
      }
      OrderedSameMembers(a[1..], b[1..]);
    }
  }

  /** Two rankings of the same catalogue are equal, so the sort algorithm does not matter. */
  lemma {:induction false} RankingIsUnique(a: seq<Entry>, b: seq<Entry>, q: string, commands: seq<Command>)
    requires IsRanking(a, q, commands) && IsRanking(b, q, commands)
    ensures a == b
  {
    forall e ensures e in a <==> e in b {
      if e in a { SameEntry(e, a, b, q, commands); }
      if e in b { SameEntry(e, b, a, q, commands); }
    }
    OrderedSameMembers(a, b);
  }

  lemma HeadOfOrdered(es: seq<Entry>)
    requires es != [] && Ordered(es)
    ensures Ordered(es[1..]) && forall x <- es[1..] :: Before(es[0], x)
  {
  }

  lemma PutFirst(e: Entry, es: seq<Entry>)
    requires Ordered(es) && forall x <- es :: Before(e, x)
    ensures Ordered([e] + es)
  {
    var all := [e] + es;
    forall i, j | 0 <= i < j < |all| ensures Before(all[i], all[j]) {
      if i == 0 { assert all[j] == es[j - 1] && es[j - 1] in es; }
    }
  }

  lemma AheadOfAll(e: Entry, es: seq<Entry>)
    requires es != [] && Ordered(es) && Before(e, es[0])
    ensures forall x <- es :: Before(e, x)
  {
    HeadOfOrdered(es);
    assert es == [es[0]] + es[1..];
  }

  /** Puts one entry into its place; stands for the library sort on a list kept in order. */
  function Insert(es: seq<Entry>, e: Entry): (r: seq<Entry>)
    requires Ordered(es) && forall x <- es :: x.idx != e.idx
    ensures Ordered(r)
    ensures forall x :: x in r <==> x in es || x == e
  {
    if es == [] then [e]
    else if Before(e, es[0]) then
      AheadOfAll(e, es);
      PutFirst(e, es);
      [e] + es
    else
      HeadOfOrdered(es);
      assert es == [es[0]] + es[1..];
      var rest := Insert(es[1..], e);
      PutFirst(es[0], rest);
      [es[0]] + rest
  }

  function Sort(es: seq<Entry>): (r: seq<Entry>)
    requires forall i, j | 0 <= i < j < |es| :: es[i].idx != es[j].idx
    ensures Ordered(r)
    ensures forall x :: x in r <==> x in es
  {
    if es == [] then []
    else
      assert es == es[..|es| - 1] + [es[|es| - 1]];
      Insert(Sort(es[..|es| - 1]), es[|es| - 1])
  }

  /** Least score of one command, computed by the alias loop of the source. */
  method ScoreCommand(query: string, cmd: Command) returns (r: Option<nat>)
    ensures r.Some? <==> Matches(Lower(query), cmd)
    ensures r.Some? ==> BestScore(Lower(query), cmd, r.value)
  {
    ghost var q := Lower(query);
    r := FuzzyScore(query, cmd.name);
    ghost var texts := [cmd.name] + cmd.aliases;
    assert texts[0] == cmd.name;
    var i := 0;
    while i < |cmd.aliases|
      invariant 0 <= i <= |cmd.aliases|
      invariant forall k | 0 <= k <= i && Score(q, Lower(texts[k])).Some? ::
                  r.Some? && r.value <= Score(q, Lower(texts[k])).value
      invariant r.Some? ==> exists k :: 0 <= k <= i && Score(q, Lower(texts[k])) == r
    {
      var aliasScore := FuzzyScore(query, cmd.aliases[i]);
      assert texts[i + 1] == cmd.aliases[i];
      if aliasScore.Some? && (r.None? || aliasScore.value < r.value) {
        r := aliasScore;
      }
      i := i + 1;
    }
    forall text | text in texts && r.None?
      ensures !IsSubsequence(q, Lower(text))
    {
      ScoreIsMinimalPenalty(q, Lower(text));
    }
    if r.Some? {
      ghost var k :| 0 <= k < |texts| && Score(q, Lower(texts[k])) == r;
      assert texts[k] in texts;
      assert BestScore(q, cmd, r.value);
      MatchesIffBestScore(q, cmd);
    }
  }

  /** Only white space, by character codes. */
  ghost predicate TrimsToNothing(s: string) {
    forall c <- s :: c as int in {9, 10, 11, 12, 13, 32}
  }

  lemma BlankTrimsToNothing(s: string)
    ensures IsBlank(s) <==> TrimsToNothing(s)
  {
    if IsBlank(s) {
      forall c | c in s ensures c as int in {9, 10, 11, 12, 13, 32} {
        var i :| 0 <= i < |s| && s[i] == c;
        assert IsSpace(s[i]);
      }
    }
    if TrimsToNothing(s) {
      forall i | 0 <= i < |s| ensures IsSpace(s[i]) { assert s[i] in s; }
    }
  }

  /** A blank query keeps the catalogue as it is; any other query yields the unique ranking. */
  method FuzzyFilter(query: string, commands: seq<Command>) returns (r: seq<Command>)
    ensures TrimsToNothing(query) ==> r == commands
    ensures !TrimsToNothing(query) ==> exists es :: IsRanking(es, Lower(query), commands) && r == CommandsOf(es)
  {
    BlankTrimsToNothing(query);
    if IsBlank(query) { return commands; }
    ghost var q := Lower(query);
    var scored: seq<Entry> := [];
    var idx := 0;
    while idx < |commands|
      invariant 0 <= idx <= |commands|
      invariant Accounted(scored, q, commands, idx)
      invariant forall i, j | 0 <= i < j < |scored| :: scored[i].idx != scored[j].idx
    {
      var score := ScoreCommand(query, commands[idx]);
      if score.Some? {
        var e := Entry(commands[idx], score.value, idx);
        assert e in scored + [e];
        ghost var before := scored;
        scored := scored + [e];
        assert forall x <- before :: x in scored;
      }
      idx := idx + 1;
    }
    var es := Sort(scored);
    assert IsRanking(es, q, commands);
    r := CommandsOf(es);
  }

  /** Extending a query keeps a subset of the palette and never lowers a command's score. */
  lemma LongerQueryNarrows(query: string, more: string, commands: seq<Command>, a: seq<Entry>, b: seq<Entry>)
    requires IsRanking(a, Lower(query), commands)
    requires IsRanking(b, Lower(query + more), commands)
    ensures forall e <- b :: exists d :: d in a && d.idx == e.idx && d.score <= e.score
  {
    LowerConcat(query, more);
    var q, x := Lower(query), Lower(more);
    forall e | e in b
      ensures exists d :: d in a && d.idx == e.idx && d.score <= e.score
    {
      var text :| text in [e.cmd.name] + e.cmd.aliases && Score(q + x, Lower(text)) == Some(e.score);
      LongerQueryScoresNoBetter(q, x, Lower(text));
      ScoreIsMinimalPenalty(q, Lower(text));
      assert Matches(q, e.cmd);
      var d :| d in a && d.idx == e.idx;
      assert BestScore(q, e.cmd, d.score);
    }
  }
}
