/**
 Walks along single links. A walk either comes to an end or runs into itself; with finitely many
 linked names there is no third case.
 */
module Chains {
  import opened Prelude

  type Link = string -> Option<string>

  /** The name reached after `n` links, if the walk gets that far. */
  ghost function Walk(next: Link, name: string, n: nat): Option<string> {
    if n == 0 then Some(name)
    else match Walk(next, name, n - 1)
         case None => None
         case Some(m) => next(m)
  }

  ghost predicate Ends(next: Link, name: string) {
    exists n: nat :: Walk(next, name, n).None?
  }

  ghost predicate Cycles(next: Link, name: string) {
    exists i: nat, j: nat :: i < j && Walk(next, name, i).Some? && Walk(next, name, i) == Walk(next, name, j)
  }

  lemma {:induction false} WalkShift(next: Link, name: string, n: nat)
    requires next(name).Some?
    ensures Walk(next, name, n + 1) == Walk(next, next(name).value, n)
  {
    if n == 0 {
    } else {
      WalkShift(next, name, n - 1);
    }
  }

  lemma {:induction false} EndPersists(next: Link, name: string, n: nat, m: nat)
    requires Walk(next, name, n).None? && n <= m
    ensures Walk(next, name, m).None?
    decreases m - n
  {
    if n == m {
    } else {
      EndPersists(next, name, n, m - 1);
    }
  }

  lemma {:induction false} Periodic(next: Link, name: string, i: nat, j: nat, m: nat)
    requires Walk(next, name, i) == Walk(next, name, j)
    ensures Walk(next, name, i + m) == Walk(next, name, j + m)
  {
    if m == 0 {
    } else {
      Periodic(next, name, i, j, m - 1);
    }
  }

  lemma {:induction false} CycleNeverEnds(next: Link, name: string, i: nat, j: nat, n: nat)
    requires i < j && Walk(next, name, i).Some? && Walk(next, name, i) == Walk(next, name, j)
    ensures Walk(next, name, n).Some?
  {
    if Walk(next, name, n).None? {
      if n <= j {
        EndPersists(next, name, n, j);
      } else {
        Periodic(next, name, i, j, n - j);
        CycleNeverEnds(next, name, i, j, n - (j - i));
      }
    }
  }

  /** The names passed during the first `n` stations. */
  ghost function Visited(next: Link, name: string, n: nat): set<string> {
    if n == 0 then {}
    else Visited(next, name, n - 1) + match Walk(next, name, n - 1) case None => {} case Some(m) => {m}
  }

  lemma {:induction false} VisitedMember(next: Link, name: string, n: nat, x: string) returns (k: nat)
    requires x in Visited(next, name, n)
    ensures k < n && Walk(next, name, k) == Some(x)
  {
    if Walk(next, name, n - 1) == Some(x) { k := n - 1; } else { k := VisitedMember(next, name, n - 1, x); }
  }

  lemma {:induction false} VisitedCount(next: Link, name: string, n: nat)
    requires forall k | 0 <= k < n :: Walk(next, name, k).Some?
    requires forall i, j | 0 <= i < j < n :: Walk(next, name, i) != Walk(next, name, j)
    ensures |Visited(next, name, n)| == n
  {
    if n == 0 {
    } else {
      VisitedCount(next, name, n - 1);
      var last := Walk(next, name, n - 1).value;
      if last in Visited(next, name, n - 1) {
        var k := VisitedMember(next, name, n - 1, last);
      }
    }
  }

  lemma {:induction false} VisitedWithin(next: Link, name: string, n: nat, domain: set<string>)
    requires forall k | 0 <= k < n && Walk(next, name, k).Some? :: Walk(next, name, k).value in domain
    ensures Visited(next, name, n) <= domain
  {
    if n == 0 {
    } else {
      VisitedWithin(next, name, n - 1, domain);
    }
  }

  lemma {:induction false} SubsetSize<T>(a: set<T>, b: set<T>)
    requires a <= b
    ensures |a| <= |b|
  {
    if a == {} {
    } else {
      var x :| x in a;
      SubsetSize(a - {x}, b - {x});
    }
  }

  /** A walk without a cycle leaves the finite domain after at most one link per member. */
  lemma AcyclicWalkIsShort(next: Link, name: string, domain: set<string>)
    requires forall x :: next(x).Some? ==> x in domain
    requires !Cycles(next, name)
    ensures Walk(next, name, |domain| + 1).None?
  {
    var n := |domain| + 1;
    if Walk(next, name, n).Some? {
      forall k | 0 <= k < n
        ensures Walk(next, name, k).Some? && Walk(next, name, k).value in domain
      {
        if Walk(next, name, k + 1).None? { EndPersists(next, name, k + 1, n); }
      }
      VisitedCount(next, name, n);
      VisitedWithin(next, name, n, domain);
      SubsetSize(Visited(next, name, n), domain);
    }
  }

  lemma EndsIffNoCycle(next: Link, name: string, domain: set<string>)
    requires forall x :: next(x).Some? ==> x in domain
    ensures Ends(next, name) <==> !Cycles(next, name)
  {
    if Cycles(next, name) {
      var i: nat, j: nat :| i < j && Walk(next, name, i).Some? && Walk(next, name, i) == Walk(next, name, j);
      forall n: nat ensures Walk(next, name, n).Some? { CycleNeverEnds(next, name, i, j, n); }
    } else {
      AcyclicWalkIsShort(next, name, domain);
    }
  }

  lemma EndsStep(next: Link, name: string)
    ensures next(name).None? ==> Ends(next, name)
    ensures next(name).Some? ==> (Ends(next, name) <==> Ends(next, next(name).value))
  {
    if next(name).None? {
      assert Walk(next, name, 0) == Some(name);
      assert Walk(next, name, 1).None?;
    } else {
      if Ends(next, name) {
        var n: nat :| Walk(next, name, n).None?;
        WalkShift(next, name, n - 1);
      }
      if Ends(next, next(name).value) {
        var n: nat :| Walk(next, next(name).value, n).None?;
        WalkShift(next, name, n);
      }
    }
  }
}
