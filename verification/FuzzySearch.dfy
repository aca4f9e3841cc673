/**
 File search scoring (src/schemas/fuzzy-search.schema.ts): exact, substring and subsequence
 tiers. The module finds the query lengths up to which the tiers keep apart.
 */
module FuzzySearch {
  import opened Prelude
  import FuzzyPalette

  /** `q` occurs contiguously in `t`. */
  predicate Includes(t: string, q: string)
    decreases t
  {
    q <= t || (t != "" && Includes(t[1..], q))
  }

  /** The part after the last slash. */
  function FileName(path: string): string {
    if path == "" || path[|path| - 1] == '/' then ""
    else FileName(path[..|path| - 1]) + [path[|path| - 1]]
  }

  /** Greedy scan: 10 per match plus 5 for every match of the current unbroken streak. */
  function Streaks(q: string, t: string, streak: nat): Option<nat>
    decreases t
  {
    if q == "" then Some(0)
    else if t == "" then None
    else if t[0] == q[0] then
      match Streaks(q[1..], t[1..], streak + 1)
      case None => None
      case Some(s) => Some(10 + (streak + 1) * 5 + s)
    else Streaks(q, t[1..], 0)
  }

  function CharScore(q: string, t: string): nat {
    match Streaks(q, t, 0)
    case None => 0
    case Some(s) => s
  }

  method ConsecutiveCharScore(query: string, target: string) returns (r: nat)
    ensures r == CharScore(query, target)
  {
    var qi, score, consecutive, ti := 0, 0, 0, 0;
    while ti < |target| && qi < |query|
      invariant 0 <= qi <= |query| && 0 <= ti <= |target|
      invariant Streaks(query, target, 0)
             == match Streaks(query[qi..], target[ti..], consecutive) case None => None case Some(s) => Some(score + s)
    {
      assert target[ti..][1..] == target[ti + 1..];
      assert query[qi..][1..] == query[qi + 1..];
      if target[ti] == query[qi] {
        consecutive := consecutive + 1;
        score := score + (10 + consecutive * 5);
        qi := qi + 1;
      } else {
        consecutive := 0;
      }
      ti := ti + 1;
    }
    if qi < |query| { return 0; }
    return score;
  }

  lemma {:induction false} IncludedIsShorter(t: string, q: string)
    ensures Includes(t, q) ==> |q| <= |t|
    ensures Includes(t, q) && |q| == |t| ==> q == t
  {
    if q <= t || t == "" {
    } else {
      IncludedIsShorter(t[1..], q);
    }
  }

  function Ratio(q: string, t: string): real
    requires t != ""
  {
    |q| as real / |t| as real * 100.0
  }

  /** The score of one path; 0 means no match. */
  function ScoreFile(query: string, filePath: string): real {
    var normalized, q := Lower(filePath), Lower(query);
    var fileName := Lower(FileName(filePath));
    if normalized == q then 1000.0
    else if Includes(normalized, q) then
      IncludedIsShorter(normalized, q);
      if fileName == q then 900.0
      else if Includes(fileName, q) then
        IncludedIsShorter(fileName, q);
        700.0 + Ratio(q, fileName)
      else 500.0 + Ratio(q, normalized)
    else
      var base := CharScore(q, normalized);
      var inName := CharScore(q, fileName);
      if base <= 0 then 0.0 else if inName > 0 then (base + inName * 2) as real else base as real
  }

  // ---------------------------------------------------------------------------
  // A positive score means subsequence
  // ---------------------------------------------------------------------------

  lemma {:induction false} StreaksIffReach(q: string, t: string, streak: nat)
    ensures Streaks(q, t, streak).Some? <==> FuzzyPalette.Reach(q, t).Some?
    decreases t
  {
    if q == "" || t == "" {
    } else {
      if t[0] == q[0] { StreaksIffReach(q[1..], t[1..], streak + 1); } else { StreaksIffReach(q, t[1..], 0); }
    }
  }

  lemma {:induction false} StreaksPositive(q: string, t: string, streak: nat)
    requires q != "" && Streaks(q, t, streak).Some?
    ensures Streaks(q, t, streak).value > 0
    decreases t
  {
    if t[0] == q[0] {
    } else {
      StreaksPositive(q, t[1..], 0);
    }
  }

  lemma {:induction false} PrefixReached(q: string, t: string)
    requires q <= t
    ensures FuzzyPalette.Reach(q, t).Some?
    decreases t
  {
    if q == "" {
    } else {
      PrefixReached(q[1..], t[1..]);
    }
  }

  lemma SkippingIsHarmless(q: string, t: string)
    requires t != "" && FuzzyPalette.Reach(q, t[1..]).Some?
    ensures FuzzyPalette.Reach(q, t).Some?
  {
    var e := FuzzyPalette.ReachIsEmbedded(q, t[1..]);
    var d := FuzzyPalette.Shifted(e);
    assert FuzzyPalette.Embeds(d, q, t);
    FuzzyPalette.ReachIsEarliest(q, t, d);
  }

  lemma {:induction false} IncludedReached(t: string, q: string)
    requires Includes(t, q)
    ensures FuzzyPalette.Reach(q, t).Some?
  {
    if q <= t {
      PrefixReached(q, t);
    } else {
      IncludedReached(t[1..], q);
      SkippingIsHarmless(q, t);
    }
  }

  lemma RatioBounds(q: string, t: string)
    requires |q| < |t|
    ensures 0.0 <= Ratio(q, t) < 100.0
    ensures q != "" ==> Ratio(q, t) > 0.0
  {
    var a, b := |q| as real, |t| as real;
    assert 0.0 <= a < b;
    assert a / b < 1.0;
  }

  /** A substring match scores at least 500, and below 1000 unless the path is the query. */
  lemma SubstringScore(query: string, filePath: string)
    ensures var q, t := Lower(query), Lower(filePath);
            && (Includes(t, q) ==> ScoreFile(query, filePath) >= 500.0)
            && (Includes(t, q) && q != "" ==> ScoreFile(query, filePath) > 500.0)
            && (Includes(t, q) && t != q ==> ScoreFile(query, filePath) < 1000.0)
  {
    var q, t, name := Lower(query), Lower(filePath), Lower(FileName(filePath));
    IncludedIsShorter(t, q);
    IncludedIsShorter(name, q);
    if Includes(t, q) && t != q {
      RatioBounds(q, t);
      if Includes(name, q) && name != q { RatioBounds(q, name); }
    }
  }

  /** A non-empty query scores above zero exactly on the paths it is a subsequence of. */
  lemma PositiveIffSubsequence(query: string, filePath: string)
    requires query != ""
    ensures ScoreFile(query, filePath) > 0.0 <==> FuzzyPalette.IsSubsequence(Lower(query), Lower(filePath))
  {
    var q, t := Lower(query), Lower(filePath);
    FuzzyPalette.ScoreIsMinimalPenalty(q, t);
    StreaksIffReach(q, t, 0);
    if q <= t { PrefixReached(q, t); }
    if Includes(t, q) { IncludedReached(t, q); }
    if Streaks(q, t, 0).Some? { StreaksPositive(q, t, 0); }
    SubstringScore(query, filePath);
  }

  // ---------------------------------------------------------------------------
  // Bounds
  // ---------------------------------------------------------------------------

  /** The score of `n` matches in one streak that starts after `streak` earlier ones, times 2. */
  function Twice(n: nat, streak: nat): nat {
    20 * n + 10 * n * streak + 5 * n * (n + 1)
  }

  lemma TwiceStep(n: nat, streak: nat)
    requires n > 0
    ensures Twice(n, streak) == 20 + (streak + 1) * 10 + Twice(n - 1, streak + 1)
  {
  }

  lemma {:induction false} StreaksBounded(q: string, t: string, streak: nat)
    requires Streaks(q, t, streak).Some?
    ensures 2 * Streaks(q, t, streak).value <= Twice(|q|, streak)
    decreases t
  {
    if q == "" {
    } else {
      if t[0] == q[0] {
        StreaksBounded(q[1..], t[1..], streak + 1);
        TwiceStep(|q|, streak);
      } else {
        StreaksBounded(q, t[1..], 0);
        assert 10 * |q| * streak >= 0;
      }
    }
  }

  /** A scan that does not match the query in one go loses its streak somewhere. */
  lemma {:induction false} BrokenStreak(q: string, t: string, streak: nat) returns (k: nat)
    requires Streaks(q, t, streak).Some? && !(q <= t)
    ensures k < |q| && 2 * Streaks(q, t, streak).value <= Twice(k, streak) + Twice(|q| - k, 0)
    ensures t[0] == q[0] ==> k > 0
    decreases t
  {
    if t[0] == q[0] {
      var k' := BrokenStreak(q[1..], t[1..], streak + 1);
      k := k' + 1;
      TwiceStep(k, streak);
    } else {
      StreaksBounded(q, t[1..], 0);
      k := 0;
    }
  }

  /** The best possible score of a broken match of length `n`: all but one character in one streak. */
  function BestBroken(n: nat): nat {
    10 * n + 5 * ((n * (n - 1)) / 2 + 1)
  }

  lemma ProductOfPositives(a: int, b: int)
    requires a >= 1 && b >= 1
    ensures a * b >= a + b - 1
  {
    assert (a - 1) * (b - 1) >= 0;
    assert (a - 1) * (b - 1) == a * b - a - b + 1;
  }

  lemma SquareOfSum(a: int, b: int)
    ensures (a + b) * (a + b - 1) == a * a + 2 * (a * b) + b * b - a - b
  {
  }

  lemma TwiceFromZero(n: nat)
    ensures Twice(n, 0) == 25 * n + 5 * (n * n)
  {
  }

  lemma OneLongStreakIsBest(n: nat, k: nat)
    requires 0 < k < n
    ensures Twice(k, 0) + Twice(n - k, 0) <= 20 * n + 5 * (n * (n - 1) + 2)
  {
    var a, b := k, n - k;
    ProductOfPositives(a, b);
    SquareOfSum(a, b);
    TwiceFromZero(a);
    TwiceFromZero(b);
  }

  lemma {:induction false} ProductIsEven(n: nat)
    ensures n * (n - 1) % 2 == 0
  {
    if n == 0 {
    } else {
      ProductIsEven(n - 1);
      assert n * (n - 1) == (n - 1) * (n - 2) + 2 * (n - 1);
    }
  }

  lemma BestBrokenDoubled(n: nat)
    ensures 2 * BestBroken(n) == 20 * n + 5 * (n * (n - 1) + 2)
  {
    ProductIsEven(n);
  }

  lemma {:induction false} BrokenScoreBounded(q: string, t: string)
    requires q != "" && !Includes(t, q)
    ensures CharScore(q, t) <= BestBroken(|q|)
    decreases t
  {
    BestBrokenDoubled(|q|);
    if Streaks(q, t, 0).Some? {
      if t[0] == q[0] {
        var k := BrokenStreak(q, t, 0);
        OneLongStreakIsBest(|q|, k);
      } else {
        BrokenScoreBounded(q, t[1..]);
      }
    }
  }

  lemma {:induction false} BestBrokenGrows(n: nat, m: nat)
    requires n <= m
    ensures BestBroken(n) <= BestBroken(m)
    decreases m - n
  {
    BestBrokenDoubled(n);
    BestBrokenDoubled(m);
    if n == m {
    } else {
      BestBrokenGrows(n, m - 1);
      BestBrokenDoubled(m - 1);
      assert m * (m - 1) == (m - 1) * (m - 2) + 2 * (m - 1);
    }
  }

  lemma {:induction false} FileNameIsSuffix(path: string)
    ensures |FileName(path)| <= |path| && path[|path| - |FileName(path)|..] == FileName(path)
  {
    if path == "" || path[|path| - 1] == '/' {
    } else {
      FileNameIsSuffix(path[..|path| - 1]);
    }
  }

  lemma {:induction false} IncludesAfter(a: string, b: string, q: string)
    requires Includes(b, q)
    ensures Includes(a + b, q)
  {
    if a == "" {
      assert a + b == b;
    } else {
      assert (a + b)[1..] == a[1..] + b;
      IncludesAfter(a[1..], b, q);
    }
  }

  lemma {:induction false} NameIncludedInPath(path: string, q: string)
    ensures Includes(Lower(FileName(path)), q) ==> Includes(Lower(path), q)
  {
    var name := FileName(path);
    FileNameIsSuffix(path);
    assert Lower(path) == Lower(path)[..|path| - |name|] + Lower(name);
    if Includes(Lower(name), q) {
      IncludesAfter(Lower(path)[..|path| - |name|], Lower(name), q);
    }
  }

  /** A match that is no substring scores at most three times the best broken score. */
  lemma BrokenScore(query: string, filePath: string)
    requires query != "" && !Includes(Lower(filePath), Lower(query))
    ensures ScoreFile(query, filePath) <= (3 * BestBroken(|query|)) as real
  {
    var q, t, name := Lower(query), Lower(filePath), Lower(FileName(filePath));
    NameIncludedInPath(filePath, q);
    BrokenScoreBounded(q, t);
    BrokenScoreBounded(q, name);
  }

  // ---------------------------------------------------------------------------
  // The tiers
  // ---------------------------------------------------------------------------

  /** Every substring match of this query outranks every match that is no substring. */
  ghost predicate SubstringTierHolds(query: string) {
    forall a: string, b: string |
      Includes(Lower(a), Lower(query)) && !Includes(Lower(b), Lower(query)) ::
      ScoreFile(query, a) > ScoreFile(query, b)
  }

  /** The path that equals the query outranks every other path. */
  ghost predicate ExactTierHolds(query: string) {
    forall b: string | Lower(b) != Lower(query) :: 1000.0 > ScoreFile(query, b)
  }

  lemma ShortQueriesKeepSubstringTier(query: string)
    requires 0 < |query| <= 6
    ensures SubstringTierHolds(query)
  {
    forall a: string, b: string | Includes(Lower(a), Lower(query)) && !Includes(Lower(b), Lower(query))
      ensures ScoreFile(query, a) > ScoreFile(query, b)
    {
      SubstringScore(query, a);
      BrokenScore(query, b);
      BestBrokenGrows(|query|, 6);
      assert BestBroken(6) == 140;
    }
  }

  lemma MediumQueriesKeepExactTier(query: string)
    requires 0 < |query| <= 10
    ensures ExactTierHolds(query)
  {
    forall b: string | Lower(b) != Lower(query)
      ensures 1000.0 > ScoreFile(query, b)
    {
      if Includes(Lower(b), Lower(query)) {
        SubstringScore(query, b);
      } else {
        BrokenScore(query, b);
        BestBrokenGrows(|query|, 10);
        assert BestBroken(10) == 330;
      }
    }
  }

  // ---------------------------------------------------------------------------
  // Longer queries cross the tiers
  // ---------------------------------------------------------------------------

  function Repeat(c: char, n: nat): (r: string)
    ensures |r| == n && forall i | 0 <= i < n :: r[i] == c
  {
    if n == 0 then "" else [c] + Repeat(c, n - 1)
  }

  /** `n - 1` times `a`, then `b`. */
  function LongQuery(n: nat): string
    requires n > 0
  {
    Repeat('a', n - 1) + "b"
  }

  /** The same with one character in between: no substring, yet nearly one streak. */
  function Rival(n: nat): string
    requires n > 0
  {
    Repeat('a', n - 1) + "_b"
  }

  /** A path that contains the query in a directory name, far from its short file name. */
  function DistantMatch(n: nat): string
    requires n > 0
  {
    LongQuery(n) + "/" + Repeat('z', 3 * n - 1)
  }

  lemma LowerIsIdentity(s: string)
    requires forall i | 0 <= i < |s| :: !('A' <= s[i] <= 'Z')
    ensures Lower(s) == s
  {
  }

  lemma {:induction false} NoSlashNoDirectory(path: string)
    requires forall i | 0 <= i < |path| :: path[i] != '/'
    ensures FileName(path) == path
  {
    if path == "" {
    } else {
      NoSlashNoDirectory(path[..|path| - 1]);
      assert path == path[..|path| - 1] + [path[|path| - 1]];
    }
  }

  lemma {:induction false} NameAfterSlash(dir: string, name: string)
    requires forall i | 0 <= i < |name| :: name[i] != '/'
    ensures FileName(dir + "/" + name) == name
  {
    var path := dir + "/" + name;
    if name == "" {
    } else {
      NameAfterSlash(dir, name[..|name| - 1]);
      assert path[..|path| - 1] == dir + "/" + name[..|name| - 1];
      assert name == name[..|name| - 1] + [name[|name| - 1]];
    }
  }

  lemma {:induction false} RivalStreaks(k: nat, streak: nat)
    ensures Streaks(Repeat('a', k) + "b", Repeat('a', k) + "_b", streak).Some?
    ensures 2 * Streaks(Repeat('a', k) + "b", Repeat('a', k) + "_b", streak).value == Twice(k, streak) + 30
  {
    var q, t := Repeat('a', k) + "b", Repeat('a', k) + "_b";
    if k == 0 {
      assert q == "b" && t == "_b" && t[1..] == "b";
      assert "b"[1..] == "";
      assert Streaks("b", "b", 0) == Some(15);
    } else {
      assert q[1..] == Repeat('a', k - 1) + "b" && t[1..] == Repeat('a', k - 1) + "_b";
      RivalStreaks(k - 1, streak + 1);
      TwiceStep(k, streak);
    }
  }

  lemma RivalIsNoSubstring(n: nat)
    requires n > 1
    ensures !Includes(Rival(n), LongQuery(n))
  {
    var q, t := LongQuery(n), Rival(n);
    assert q[n - 1] == 'b' && t[n - 1] == '_';
    assert t[1..][n - 2] == '_' && q[n - 2] == 'a';
    IncludedIsShorter(t[1..], q);
  }

  lemma RivalParts(n: nat)
    requires n > 1
    ensures var q, t := LongQuery(n), Rival(n);
            Lower(q) == q && Lower(t) == t && |t| == |q| + 1 && FileName(t) == t
  {
    LowerIsIdentity(LongQuery(n));
    LowerIsIdentity(Rival(n));
    NoSlashNoDirectory(Rival(n));
  }

  lemma RivalCharScore(n: nat)
    requires n > 1
    ensures CharScore(LongQuery(n), Rival(n)) == BestBroken(n)
  {
    RivalStreaks(n - 1, 0);
    BestBrokenDoubled(n);
    assert 5 * (n - 1) * n == 5 * (n * (n - 1));
  }

  lemma RivalScore(n: nat)
    requires n > 1
    ensures Lower(LongQuery(n)) == LongQuery(n) && Lower(Rival(n)) == Rival(n)
    ensures ScoreFile(LongQuery(n), Rival(n)) == (3 * BestBroken(n)) as real
  {
    RivalParts(n);
    RivalIsNoSubstring(n);
    RivalCharScore(n);
    BestBrokenDoubled(n);
  }

  lemma {:induction false} NoCharNoMatch(t: string, q: string, c: char)
    requires c in q && c !in t
    ensures !Includes(t, q)
  {
    if t == "" {
    } else {
      assert forall x | x in t[1..] :: x in t;
      NoCharNoMatch(t[1..], q, c);
    }
  }

  lemma DistantParts(n: nat)
    requires n > 1
    ensures var q, t := LongQuery(n), DistantMatch(n);
            && Lower(q) == q && Lower(t) == t && |q| == n && |t| == 4 * n && Includes(t, q)
            && Lower(FileName(t)) == Repeat('z', 3 * n - 1)
  {
    var q, t, z := LongQuery(n), DistantMatch(n), Repeat('z', 3 * n - 1);
    LowerIsIdentity(q);
    LowerIsIdentity(t);
    LowerIsIdentity(z);
    NameAfterSlash(q, z);
    assert q <= t;
  }

  lemma NoQueryInName(n: nat)
    requires n > 1
    ensures !Includes(Repeat('z', 3 * n - 1), LongQuery(n)) && Repeat('z', 3 * n - 1) != LongQuery(n)
  {
    var q, z := LongQuery(n), Repeat('z', 3 * n - 1);
    assert q[0] == 'a' && 'a' in q;
    assert z[0] == 'z';
    NoCharNoMatch(z, q, 'a');
  }

  lemma Quarter(q: string, t: string)
    requires q != "" && |t| == 4 * |q|
    ensures Ratio(q, t) == 25.0
  {
    var r := |q| as real;
    assert |t| as real == 4.0 * r;
    assert r / (4.0 * r) == 0.25;
  }

  lemma DistantScore(n: nat)
    requires n > 1
    ensures Lower(LongQuery(n)) == LongQuery(n)
    ensures Lower(DistantMatch(n)) == DistantMatch(n) && Includes(DistantMatch(n), LongQuery(n))
    ensures ScoreFile(LongQuery(n), DistantMatch(n)) == 525.0
  {
    DistantParts(n);
    NoQueryInName(n);
    Quarter(LongQuery(n), DistantMatch(n));
  }

  lemma LongQueryBreaksSubstringTier(n: nat)
    requires n >= 7
    ensures |LongQuery(n)| == n && !SubstringTierHolds(LongQuery(n))
  {
    RivalScore(n);
    RivalIsNoSubstring(n);
    DistantScore(n);
    BestBrokenGrows(7, n);
    assert BestBroken(7) == 180;
    var a, b := DistantMatch(n), Rival(n);
    assert Includes(Lower(a), Lower(LongQuery(n))) && !Includes(Lower(b), Lower(LongQuery(n)));
    assert !(ScoreFile(LongQuery(n), a) > ScoreFile(LongQuery(n), b));
  }

  lemma LongQueryBreaksExactTier(n: nat)
    requires n >= 11
    ensures |LongQuery(n)| == n && !ExactTierHolds(LongQuery(n))
  {
    RivalScore(n);
    BestBrokenGrows(11, n);
    assert BestBroken(11) == 390;
    var b := Rival(n);
    assert |b| == n + 1;
    assert Lower(b) != Lower(LongQuery(n));
    assert !(1000.0 > ScoreFile(LongQuery(n), b));
  }

  /** Substring matches stay on top for all queries of a length exactly up to six characters. */
  lemma SubstringTierUpToSix(n: nat)
    requires n > 0
    ensures (forall query: string | |query| == n :: SubstringTierHolds(query)) <==> n <= 6
  {
    if n <= 6 {
      forall query: string | |query| == n ensures SubstringTierHolds(query) { ShortQueriesKeepSubstringTier(query); }
    } else {
      LongQueryBreaksSubstringTier(n);
    }
  }

  /** The exact match stays on top for all queries of a length exactly up to ten characters. */
  lemma ExactTierUpToTen(n: nat)
    requires n > 0
    ensures (forall query: string | |query| == n :: ExactTierHolds(query)) <==> n <= 10
  {
    if n <= 10 {
      forall query: string | |query| == n ensures ExactTierHolds(query) { MediumQueriesKeepExactTier(query); }
    } else {
      LongQueryBreaksExactTier(n);
    }
  }

  // ---------------------------------------------------------------------------
  // The score, case by case
  // ---------------------------------------------------------------------------

  ghost predicate OccursAt(q: string, t: string, i: nat) {
    i + |q| <= |t| && t[i..i + |q|] == q
  }

  ghost predicate Within(q: string, t: string) {
    exists i: nat :: OccursAt(q, t, i)
  }

  lemma OccursAtFirst(q: string, t: string)
    ensures OccursAt(q, t, 0) <==> q <= t
  {
  }

  lemma OccursLater(q: string, t: string, i: nat)
    requires t != ""
    ensures OccursAt(q, t, i + 1) <==> OccursAt(q, t[1..], i)
  {
    if i + 1 + |q| <= |t| { assert t[i + 1..i + 1 + |q|] == t[1..][i..i + |q|]; }
  }

  lemma {:induction false} IncludesIffWithin(t: string, q: string)
    ensures Includes(t, q) <==> Within(q, t)
  {
    OccursAtFirst(q, t);
    if t == "" {
    } else {
      IncludesIffWithin(t[1..], q);
      forall i: nat ensures OccursAt(q, t, i + 1) <==> OccursAt(q, t[1..], i) { OccursLater(q, t, i); }
      if i: nat :| OccursAt(q, t[1..], i) { assert OccursAt(q, t, i + 1); }
      if i: nat :| OccursAt(q, t, i) { assert i == 0 || OccursAt(q, t[1..], i - 1); }
    }
  }

  /** A query scattered over the name is scattered over the whole path. */
  lemma {:induction false} ScatteredInPath(q: string, dir: string, name: string)
    requires FuzzyPalette.Reach(q, name).Some?
    ensures FuzzyPalette.Reach(q, dir + name).Some?
  {
    if dir == "" {
      assert dir + name == name;
    } else {
      assert (dir + name)[1..] == dir[1..] + name;
      ScatteredInPath(q, dir[1..], name);
      SkippingIsHarmless(q, dir + name);
    }
  }

  lemma NoScoreNoNameScore(q: string, dir: string, name: string)
    requires q != "" && CharScore(q, dir + name) == 0
    ensures CharScore(q, name) == 0
  {
    StreaksIffReach(q, name, 0);
    StreaksIffReach(q, dir + name, 0);
    if Streaks(q, dir + name, 0).Some? { StreaksPositive(q, dir + name, 0); }
    if Streaks(q, name, 0).Some? { ScatteredInPath(q, dir, name); }
  }

  lemma NameOfPath(dir: string, name: string)
    requires '/' !in name && (dir == "" || dir[|dir| - 1] == '/')
    ensures FileName(dir + name) == name
  {
    if dir == "" {
      NoSlashNoDirectory(name);
      assert dir + name == name;
    } else {
      assert dir + name == dir[..|dir| - 1] + "/" + name;
      NameAfterSlash(dir[..|dir| - 1], name);
    }
  }

  /**
   The score of a path made of a directory part and a file name. The path itself scores 1000; a
   substring of the path scores 900 if it is the name, 700 and its share of the name if it lies in the
   name, else 500 and its share of the path; a scattered query scores its streaks in the path, and
   twice those in the name.
   */
  lemma ScoreByTier(query: string, dir: string, name: string)
    requires '/' !in name && (dir == "" || dir[|dir| - 1] == '/')
    ensures var q, t, n := Lower(query), Lower(dir + name), Lower(name);
            var score := ScoreFile(query, dir + name);
            && (t == q ==> score == 1000.0)
            && (!Within(q, t) ==> score == (CharScore(q, t) + 2 * CharScore(q, n)) as real)
            && (t != q && Within(q, t) && n == q ==> score == 900.0)
            && (t != q && Within(q, t) && n != q && Within(q, n) ==>
                  |n| > 0 && score == 700.0 + 100.0 * (|q| as real / |n| as real))
            && (t != q && Within(q, t) && !Within(q, n) ==>
                  |t| > 0 && score == 500.0 + 100.0 * (|q| as real / |t| as real))
  {
    var q, t, n := Lower(query), Lower(dir + name), Lower(name);
    NameOfPath(dir, name);
    IncludesIffWithin(t, q);
    IncludesIffWithin(n, q);
    IncludedIsShorter(t, q);
    IncludedIsShorter(n, q);
    LowerConcat(dir, name);
    if q == "" { assert OccursAt(q, t, 0); }
    if q != "" && CharScore(q, t) == 0 { NoScoreNoNameScore(q, Lower(dir), n); }
  }
}
