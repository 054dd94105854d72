/** The mastery ladder and the attempt bookkeeping behind it (crates/shared-types/src/progress.rs
    and crates/lesson-engine/src/hints.rs). */
module Mastery {
  datatype LessonStatus = NotStarted | InProgress | Passed | NeedsReview

  datatype MasteryStatus = ReviewRequired | NeedsReviewing | PassedOnce | Strong | Mastered {
    /** The derived order, weakest first. */
    function Rank(): nat {
      match this
      case ReviewRequired => 0
      case NeedsReviewing => 1
      case PassedOnce => 2
      case Strong => 3
      case Mastered => 4
    }

    predicate AtMost(other: MasteryStatus) {
      Rank() <= other.Rank()
    }

    predicate NeedsRevisiting() {
      AtMost(NeedsReviewing)
    }

    function Score(): nat {
      match this
      case Mastered => 100
      case Strong => 85
      case PassedOnce => 70
      case NeedsReviewing => 40
      case ReviewRequired => 0
    }
  }

  function Max(a: MasteryStatus, b: MasteryStatus): (r: MasteryStatus)
    ensures a.AtMost(r) && b.AtMost(r) && (r == a || r == b)
  {
    if a.AtMost(b) then b else a
  }

  function Min(a: MasteryStatus, b: MasteryStatus): (r: MasteryStatus)
    ensures r.AtMost(a) && r.AtMost(b) && (r == a || r == b)
  {
    if a.AtMost(b) then a else b
  }

  function Evaluate(passed: bool, isAssessment: bool, hintsUsed: nat, solutionRevealed: bool): MasteryStatus {
    if !passed then if isAssessment then ReviewRequired else NeedsReviewing
    else if solutionRevealed then NeedsReviewing
    else if hintsUsed == 0 then Mastered
    else if hintsUsed == 1 then Strong
    else PassedOnce
  }

  datatype Attempt = Attempt(hintsRevealed: nat, solutionRevealed: bool, passed: bool)

  function LessonMastery(attempts: seq<Attempt>, isAssessment: bool): MasteryStatus {
    if attempts == [] then NeedsReviewing
    else
      var first := Evaluate(attempts[0].passed, isAssessment, attempts[0].hintsRevealed, attempts[0].solutionRevealed);
      if |attempts| == 1 then first else Min(first, LessonMastery(attempts[1..], isAssessment))
  }

  /** A lesson counts as passed exactly when something was attempted and every recorded attempt,
      those of optional tasks included, passed without its solution being shown.  The number of
      hints never matters. */
  lemma {:induction false} LessonMasteryPasses(attempts: seq<Attempt>, isAssessment: bool)
    ensures !LessonMastery(attempts, isAssessment).NeedsRevisiting()
       <==> attempts != [] && forall a :: a in attempts ==> a.passed && !a.solutionRevealed
  {
    if attempts != [] {
      assert attempts == [attempts[0]] + attempts[1..];
      LessonMasteryPasses(attempts[1..], isAssessment);
    }
  }

  /** Passed without the solution and with at most this many hints. */
  predicate Unaided(a: Attempt, hints: nat) {
    a.passed && !a.solutionRevealed && a.hintsRevealed <= hints
  }

  lemma OneRung(a: Attempt, isAssessment: bool)
    ensures var m := Evaluate(a.passed, isAssessment, a.hintsRevealed, a.solutionRevealed);
      && (m == Mastered <==> Unaided(a, 0)) && (m == Mastered || m == Strong <==> Unaided(a, 1))
      && (m == ReviewRequired <==> isAssessment && !a.passed)
  {
  }

  /** Which rung a lesson reaches: the top one without a hint anywhere, the next one with at most one hint
      for each task, and the lowest exactly if a task of an assessment was never passed. */
  lemma {:induction false} LessonRungs(attempts: seq<Attempt>, isAssessment: bool)
    ensures var m := LessonMastery(attempts, isAssessment);
      && (m == Mastered <==> attempts != [] && forall a :: a in attempts ==> Unaided(a, 0))
      && (m == Mastered || m == Strong <==> attempts != [] && forall a :: a in attempts ==> Unaided(a, 1))
      && (m == ReviewRequired <==> isAssessment && exists a :: a in attempts && !a.passed)
  {
    if attempts != [] {
      var first, rest := attempts[0], attempts[1..];
      assert attempts == [first] + rest;
      OneRung(first, isAssessment);
      LessonRungs(rest, isAssessment);
      hide Evaluate, Unaided;
      assert forall a :: a in attempts <==> a == first || a in rest;
      assert rest == [] ==> forall a :: a in attempts ==> a == first;
      assert first in attempts;
    }
  }

  /** The same attempts with more hints opened never reach a higher rung. */
  lemma MoreHintsNeverRaise(attempts: seq<Attempt>, more: seq<Attempt>, isAssessment: bool)
    requires |more| == |attempts|
    requires forall i :: 0 <= i < |more| ==>
               more[i] == attempts[i].(hintsRevealed := more[i].hintsRevealed)
               && more[i].hintsRevealed >= attempts[i].hintsRevealed
    ensures LessonMastery(more, isAssessment).AtMost(LessonMastery(attempts, isAssessment))
  {
    hide LessonMastery;
    LessonRungs(attempts, isAssessment);
    LessonRungs(more, isAssessment);
    LessonMasteryPasses(attempts, isAssessment);
    LessonMasteryPasses(more, isAssessment);
    forall i | 0 <= i < |attempts| ensures attempts[i] in attempts && more[i] in more {
    }
    forall a | a in attempts ensures exists b :: b in more && b == a.(hintsRevealed := b.hintsRevealed) {
      var i :| 0 <= i < |attempts| && attempts[i] == a;
      assert more[i] in more;
    }
  }
}
