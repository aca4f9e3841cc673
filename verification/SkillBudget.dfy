/**
 Character budgeting of skill descriptions (src/tui/skill-budget.ts).
 */
module SkillBudget {
  import opened Prelude

  datatype Skill = Skill(name: string, description: string)
  datatype Shown = Shown(name: string, description: string, displayName: string, displayDesc: string)
  datatype Result = Result(skills: seq<Shown>, truncated: bool, aliased: bool, budgetTotal: int, budgetUsed: int)

  function Min(a: int, b: int): int { if a < b then a else b }

  function NamesLength(skills: seq<Skill>): nat {
    if skills == [] then 0 else NamesLength(skills[..|skills| - 1]) + |skills[|skills| - 1].name|
  }

  /** Characters the entries put on screen. */
  function ShownLength(shown: seq<Shown>): nat {
    if shown == [] then 0
    else
      var last := shown[|shown| - 1];
      ShownLength(shown[..|shown| - 1]) + |last.displayName| + |last.displayDesc|
  }

  function Alias(i: nat): string {
    "r" + Decimal(i) + "/"
  }

  /** How many aliases are shown: as many as three characters each would allow. */
  function Emitted(skills: seq<Skill>, budget: int): nat {
    if budget / 3 <= 0 then 0 else Min(|skills|, budget / 3)
  }

  /** The share of one description; Dafny's division floors like the source's for a positive divisor. */
  function PerSkill(skills: seq<Skill>, budget: int): nat
    requires skills != []
  {
    if budget - NamesLength(skills) > 0 then (budget - NamesLength(skills)) / |skills| else 0
  }

  // ---------------------------------------------------------------------------
  // The loops of the source
  // ---------------------------------------------------------------------------

  /** Skills by alias only. */
  method AliasMode(skills: seq<Skill>, budget: int) returns (r: Result)
    ensures |r.skills| == Emitted(skills, budget)
    ensures forall i | 0 <= i < |r.skills| :: r.skills[i] == Shown(skills[i].name, skills[i].description, Alias(i), "")
    ensures r.truncated && r.aliased && r.budgetTotal == budget && r.budgetUsed == ShownLength(r.skills)
  {
    var maxAliased := budget / 3;
    var result: seq<Shown> := [];
    var used := 0;
    var i := 0;
    while i < |skills| && i < maxAliased
      invariant 0 <= i <= |skills| && (i <= maxAliased || i == 0) && |result| == i
      invariant forall k | 0 <= k < i :: result[k] == Shown(skills[k].name, skills[k].description, Alias(k), "")
      invariant used == ShownLength(result)
    {
      var alias := Alias(i);
      var entry := Shown(skills[i].name, skills[i].description, alias, "");
      assert (result + [entry])[..i] == result;
      result := result + [entry];
      used := used + |alias|;
      i := i + 1;
    }
    r := Result(result, true, true, budget, used);
  }

  function ShownWith(s: Skill, perSkill: nat): Shown {
    Shown(s.name, s.description, s.name,
          if |s.description| <= perSkill then s.description else s.description[..perSkill])
  }

  function ShownAll(skills: seq<Skill>, perSkill: nat): seq<Shown> {
    if skills == [] then []
    else ShownAll(skills[..|skills| - 1], perSkill) + [ShownWith(skills[|skills| - 1], perSkill)]
  }

  function DescLength(skills: seq<Skill>, perSkill: nat): nat {
    if skills == [] then 0
    else DescLength(skills[..|skills| - 1], perSkill) + |ShownWith(skills[|skills| - 1], perSkill).displayDesc|
  }

  function AnyCut(skills: seq<Skill>, perSkill: nat): bool {
    skills != [] && (AnyCut(skills[..|skills| - 1], perSkill) || |skills[|skills| - 1].description| > perSkill)
  }

  lemma {:induction false} ShownAllLength(skills: seq<Skill>, perSkill: nat)
    ensures ShownLength(ShownAll(skills, perSkill)) == NamesLength(skills) + DescLength(skills, perSkill)
  {
    if skills == [] {
    } else {
      var front := skills[..|skills| - 1];
      var shown := ShownAll(skills, perSkill);
      ShownAllLength(front, perSkill);
      assert shown == ShownAll(front, perSkill) + [ShownWith(skills[|skills| - 1], perSkill)];
      assert shown[..|shown| - 1] == ShownAll(front, perSkill);
    }
  }

  /** Names in full and an equal share for every description; `used` is the sum before the final clamp. */
  method EqualMode(skills: seq<Skill>, budget: int) returns (r: Result, ghost used: int)
    requires skills != []
    ensures r.skills == ShownAll(skills, PerSkill(skills, budget)) && !r.aliased && r.budgetTotal == budget
    ensures r.truncated <==> AnyCut(skills, PerSkill(skills, budget))
    ensures used == ShownLength(r.skills) && r.budgetUsed == Min(used, budget)
    ensures used == NamesLength(skills) + DescLength(skills, PerSkill(skills, budget))
  {
    var namesBudget := NamesLength(skills);
    var perSkill := PerSkill(skills, budget);
    var total := namesBudget;
    var anyTruncated := false;
    var result: seq<Shown> := [];
    var i := 0;
    while i < |skills|
      invariant 0 <= i <= |skills|
      invariant result == ShownAll(skills[..i], perSkill)
      invariant anyTruncated == AnyCut(skills[..i], perSkill)
      invariant total == namesBudget + DescLength(skills[..i], perSkill)
    {
      var s := skills[i];
      var displayDesc := if |s.description| <= perSkill then s.description else s.description[..perSkill];
      if |displayDesc| < |s.description| { anyTruncated := true; }
      total := total + |displayDesc|;
      result := result + [Shown(s.name, s.description, s.name, displayDesc)];
      assert skills[..i + 1][..i] == skills[..i];
      i := i + 1;
    }
    assert skills[..i] == skills;
    r := Result(result, anyTruncated, false, budget, Min(total, budget));
    used := total;
    ShownAllLength(skills, perSkill);
  }

  lemma {:induction false} ShownRows(skills: seq<Skill>, perSkill: nat)
    ensures |ShownAll(skills, perSkill)| == |skills|
    ensures forall i | 0 <= i < |skills| :: ShownAll(skills, perSkill)[i] == ShownWith(skills[i], perSkill)
  {
    if skills == [] {
    } else {
      ShownRows(skills[..|skills| - 1], perSkill);
    }
  }

  lemma {:induction false} CutRows(skills: seq<Skill>, perSkill: nat)
    ensures AnyCut(skills, perSkill) <==> exists i :: 0 <= i < |skills| && |skills[i].description| > perSkill
  {
    if skills == [] {
    } else {
      var front := skills[..|skills| - 1];
      CutRows(front, perSkill);
      assert forall i | 0 <= i < |front| :: front[i] == skills[i];
    }
  }

  /** Every skill is shown with its share of the text, and one is cut exactly when some text shown is not whole. */
  lemma ShownAllAt(skills: seq<Skill>, perSkill: nat)
    ensures |ShownAll(skills, perSkill)| == |skills|
    ensures forall i | 0 <= i < |skills| :: ShownAll(skills, perSkill)[i] == ShownWith(skills[i], perSkill)
    ensures AnyCut(skills, perSkill) <==>
              exists i :: 0 <= i < |skills| && ShownAll(skills, perSkill)[i].displayDesc != skills[i].description
  {
    ShownRows(skills, perSkill);
    CutRows(skills, perSkill);
    forall i | 0 <= i < |skills|
      ensures ShownAll(skills, perSkill)[i].displayDesc != skills[i].description <==>
              |skills[i].description| > perSkill
    {
    }
  }

  lemma {:induction false} DescLengthBounded(skills: seq<Skill>, perSkill: nat)
    ensures DescLength(skills, perSkill) <= |skills| * perSkill
  {
    if skills == [] {
    } else {
      var n := |skills| - 1;
      DescLengthBounded(skills[..n], perSkill);
      assert (n + 1) * perSkill == n * perSkill + perSkill;
    }
  }

  lemma DivideFloors(total: nat, parts: nat)
    requires parts > 0
    ensures parts * (total / parts) <= total < parts * (total / parts) + parts
  {
  }

  /** The share is the largest that all descriptions together can have, or nothing when the names fill the budget. */
  lemma ShareIsLargest(skills: seq<Skill>, budget: int)
    requires skills != []
    ensures NamesLength(skills) >= budget ==> PerSkill(skills, budget) == 0
    ensures NamesLength(skills) <= budget ==>
              var share := PerSkill(skills, budget);
              |skills| * share <= budget - NamesLength(skills) < |skills| * share + |skills|
  {
    var spare := budget - NamesLength(skills);
    if spare > 0 { DivideFloors(spare, |skills|); }
  }

  /** As many aliases as there are skills, or else the most that leave three characters to each within the budget. */
  lemma EmittedIsLargest(skills: seq<Skill>, budget: int)
    ensures Emitted(skills, budget) <= |skills|
    ensures budget >= 0 ==> 3 * Emitted(skills, budget) <= budget
    ensures budget < 3 ==> Emitted(skills, budget) == 0
    ensures Emitted(skills, budget) < |skills| && budget >= 0 ==> budget < 3 * (Emitted(skills, budget) + 1)
  {
  }

  /** In equal mode the shares fit, so the clamp has nothing to cut. */
  lemma ShareFits(skills: seq<Skill>, budget: int)
    requires skills != [] && NamesLength(skills) <= budget
    ensures NamesLength(skills) + DescLength(skills, PerSkill(skills, budget)) <= budget
  {
    DescLengthBounded(skills, PerSkill(skills, budget));
    var spare := budget - NamesLength(skills);
    if spare > 0 { DivideFloors(spare, |skills|); }
  }

  /** Chooses the mode: names over three fifths of the budget force aliases. */
  method BudgetSkills(skills: seq<Skill>, budget: int) returns (r: Result)
    ensures r.budgetTotal == budget && r.budgetUsed == ShownLength(r.skills)
    ensures r.aliased <==> skills != [] && 5 * NamesLength(skills) > 3 * budget
    ensures forall i | 0 <= i < |r.skills| ::
              i < |skills| && r.skills[i].name == skills[i].name && r.skills[i].description == skills[i].description
    ensures !r.aliased ==>
              && |r.skills| == |skills| && (budget >= 0 ==> r.budgetUsed <= budget)
              && (r.truncated <==> exists i :: 0 <= i < |skills| && r.skills[i].displayDesc != skills[i].description)
              && forall i | 0 <= i < |skills| :: r.skills[i].displayName == skills[i].name
                                                 && r.skills[i].displayDesc <= skills[i].description
                                                 && |r.skills[i].displayDesc|
                                                    == Min(|skills[i].description|, PerSkill(skills, budget))
    ensures r.aliased ==>
              && |r.skills| == Emitted(skills, budget)
              && forall i | 0 <= i < |r.skills| ::
                   r.skills[i].displayName == "r" + Decimal(i) + "/" && r.skills[i].displayDesc == ""
  {
    if skills == [] { return Result([], false, false, budget, 0); }
    var totalNameLen := NamesLength(skills);
    if totalNameLen as real > budget as real * 0.6 {
      r := AliasMode(skills, budget);
    } else {
      ghost var used;
      r, used := EqualMode(skills, budget);
      ShareFits(skills, budget);
      ShownAllAt(skills, PerSkill(skills, budget));
    }
  }

  // ---------------------------------------------------------------------------
  // What aliases cost
  // ---------------------------------------------------------------------------

  /** Digits beyond the first that the numbers below `k` take. */
  function ExtraDigits(k: nat): nat {
    if k == 0 then 0 else ExtraDigits(k - 1) + |Decimal(k - 1)| - 1
  }

  lemma {:induction false} AliasesCost(shown: seq<Shown>)
    requires forall i | 0 <= i < |shown| :: shown[i].displayName == Alias(i) && shown[i].displayDesc == ""
    ensures ShownLength(shown) == 3 * |shown| + ExtraDigits(|shown|)
  {
    if shown == [] {
    } else {
      AliasesCost(shown[..|shown| - 1]);
    }
  }

  /** Nothing for the first ten, one each up to a hundred, and at least one each beyond. */
  lemma {:induction false} ExtraDigitsGrow(k: nat)
    ensures k <= 10 ==> ExtraDigits(k) == 0
    ensures 10 < k <= 100 ==> ExtraDigits(k) == k - 10
    ensures k > 10 ==> ExtraDigits(k) >= k - 10
  {
    if k == 0 {
    } else {
      ExtraDigitsGrow(k - 1);
      assert k > 10 ==> |Decimal(k - 1)| == |Decimal((k - 1) / 10)| + 1;
    }
  }

  /** Characters that alias mode uses for these skills. */
  function AliasUse(skills: seq<Skill>, budget: int): nat {
    3 * Emitted(skills, budget) + ExtraDigits(Emitted(skills, budget))
  }

  /**
   Alias mode uses at most the budget and one character for every further digit of an alias shown;
   so ten aliases or fewer fit.
   */
  lemma AliasedUse(skills: seq<Skill>, budget: nat, r: Result)
    requires |r.skills| == Emitted(skills, budget)
    requires forall i | 0 <= i < |r.skills| :: r.skills[i].displayName == Alias(i) && r.skills[i].displayDesc == ""
    ensures ShownLength(r.skills) == AliasUse(skills, budget) <= budget + ExtraDigits(|r.skills|)
    ensures |r.skills| <= 10 ==> ShownLength(r.skills) <= budget
  {
    AliasesCost(r.skills);
    ExtraDigitsGrow(|r.skills|);
  }

  /** The budgets that alias mode can overrun. */
  predicate CanOverrun(budget: nat) {
    budget == 33 || budget == 36 || budget == 37 || budget >= 39
  }

  function LongName(n: nat): (name: string)
    ensures |name| == n
  {
    seq(n, _ => 'x')
  }

  lemma {:induction false} NamesAreLong(skills: seq<Skill>, n: nat)
    requires skills != [] && forall s <- skills :: |s.name| >= n
    ensures NamesLength(skills) >= n
  {
    assert skills[|skills| - 1] in skills;
  }

  /**
   Alias mode reserves three characters per alias, but from the eleventh on an alias needs four. Some
   skills whose names force aliases overrun the budget exactly for these budgets.
   */
  lemma AliasOverrunIsExact(budget: nat)
    ensures CanOverrun(budget) <==>
            exists skills ::
              skills != [] && 5 * NamesLength(skills) > 3 * budget && AliasUse(skills, budget) > budget
  {
    if CanOverrun(budget) {
      var skills := seq(budget / 3, _ => Skill(LongName(budget + 1), ""));
      NamesAreLong(skills, budget + 1);
      ExtraDigitsGrow(budget / 3);
      assert 5 * NamesLength(skills) > 3 * budget && AliasUse(skills, budget) > budget;
    }
    forall skills | AliasUse(skills, budget) > budget
      ensures CanOverrun(budget)
    {
      ExtraDigitsGrow(Emitted(skills, budget));
    }
  }
}
