/** Which lessons are open, and why nobody gets stuck (crates/lesson-engine/src/progression.rs,
    with the curriculum order check of scripts/validate-lessons.ts). */
module GuidedPath {
  import opened Prelude
  import opened LessonCatalog
  import opened Mastery
  import ValidatorRegistry

  datatype Mode = Guided | OpenLibrary | Assessment

  datatype LessonState = LessonState(status: LessonStatus, mastery: Option<MasteryStatus>)

  type ProgressIndex = map<string, LessonState>

  predicate IsPassed(progress: ProgressIndex, id: string) {
    id in progress && progress[id].status == LessonStatus.Passed
  }

  /** The entries of `ids` that are not passed, in order. */
  function NotPassed(ids: seq<string>, progress: ProgressIndex): (r: seq<string>)
    ensures forall id :: id in r <==> id in ids && !IsPassed(progress, id)
    ensures |r| <= |ids|
  {
    if ids == [] then []
    else (if IsPassed(progress, ids[0]) then [] else [ids[0]]) + NotPassed(ids[1..], progress)
  }

  datatype Availability = Availability(unlocked: bool, missing: seq<string>)

  function AvailabilityOf(c: Catalog, mode: Mode, id: string, progress: ProgressIndex): Availability {
    var missing := NotPassed(c.Prerequisites(id), progress);
    Availability(mode != Guided || missing == [], missing)
  }

  predicate Unlocked(c: Catalog, progress: ProgressIndex, id: string) {
    AvailabilityOf(c, Guided, id, progress).unlocked
  }

  lemma UnlockedMeansPrerequisitesPassed(c: Catalog, progress: ProgressIndex, id: string)
    ensures Unlocked(c, progress, id) <==> forall v :: v in c.Prerequisites(id) ==> IsPassed(progress, v)
  {
    var missing := NotPassed(c.Prerequisites(id), progress);
    assert missing != [] ==> missing[0] in missing;
  }

  /** The other two modes never lock a lesson. */
  lemma OnlyGuidedPathLocks(c: Catalog, mode: Mode, id: string, progress: ProgressIndex)
    ensures !AvailabilityOf(c, mode, id, progress).unlocked <==> mode == Guided && !Unlocked(c, progress, id)
  {
  }

  /** What is missing are the prerequisites not yet passed, each in its place. */
  lemma {:induction false} MissingInOrder(a: seq<string>, b: seq<string>, progress: ProgressIndex)
    ensures NotPassed(a + b, progress) == NotPassed(a, progress) + NotPassed(b, progress)
    ensures |a| == 1 ==> NotPassed(a, progress) == if IsPassed(progress, a[0]) then [] else a
  {
    hide NotPassed, IsPassed;
    NotPassedNext(a, progress);
    if a == [] {
      assert a + b == b;
    } else {
      NotPassedNext(a + b, progress);
      NotPassedNext(a[1..], progress);
      assert (a + b)[1..] == a[1..] + b;
      MissingInOrder(a[1..], b, progress);
      Regroup(if IsPassed(progress, a[0]) then [] else [a[0]], NotPassed(a[1..], progress), NotPassed(b, progress));
    }
  }

  lemma Regroup(a: seq<string>, b: seq<string>, c: seq<string>)
    ensures a + (b + c) == a + b + c
  {
  }

  lemma NotPassedNext(ids: seq<string>, progress: ProgressIndex)
    ensures ids == [] ==> NotPassed(ids, progress) == []
    ensures ids != [] ==>
              NotPassed(ids, progress) == (if IsPassed(progress, ids[0]) then [] else [ids[0]])
                                          + NotPassed(ids[1..], progress)
  {
    hide IsPassed;
  }

  /** Passing more lessons never closes one. */
  lemma UnlockedIsMonotone(c: Catalog, progress: ProgressIndex, later: ProgressIndex, id: string)
    requires forall v :: IsPassed(progress, v) ==> IsPassed(later, v)
    requires Unlocked(c, progress, id)
    ensures Unlocked(c, later, id)
  {
    UnlockedMeansPrerequisitesPassed(c, progress, id);
    UnlockedMeansPrerequisitesPassed(c, later, id);
  }

  function Pass(progress: ProgressIndex, id: string): ProgressIndex {
    progress[id := LessonState(LessonStatus.Passed, Some(PassedOnce))]
  }

  // ---------------------------------------------------------------- nobody gets stuck

  ghost predicate AllExist(c: Catalog) {
    forall id, v :: id in c.lessons && v in c.lessons[id].prerequisites ==> v in c.lessons
  }

  lemma ConsistentIsSound(reg: ValidatorRegistry.Registry, c: Catalog)
    requires Consistent(reg, c)
    ensures AllExist(c) && Acyclic(c)
  {
    forall id, v | id in c.lessons && v in c.lessons[id].prerequisites ensures v in c.lessons {
      assert !Defect(reg, c, Dangling(id, v));
    }
  }

  ghost predicate AsksWithin(c: Catalog, blocked: set<string>, id: string) {
    exists v :: v in blocked && c.Edge(id, v)
  }

  lemma OneAskedFor(c: Catalog, blocked: set<string>, id: string) returns (v: string)
    requires AsksWithin(c, blocked, id)
    ensures v in blocked && c.Edge(id, v)
  {
    v :| v in blocked && c.Edge(id, v);
  }

  /** If every lesson of a non-empty set asks for another one of the set, following the requests
      must come back to a lesson seen before. */
  lemma {:induction false} RequestsComeRound(c: Catalog, blocked: set<string>, path: seq<string>)
    returns (p: seq<string>)
    requires forall id :: id in blocked ==> AsksWithin(c, blocked, id)
    requires path != [] && Walk(c, path) && forall id :: id in path ==> id in blocked
    ensures ClosedWalk(c, p)
    decreases blocked - (set id | id in path)
  {
    hide Walk, ClosedWalk, AsksWithin;
    var last := path[|path| - 1];
    assert last in path && last in blocked;
    var v := OneAskedFor(c, blocked, last);
    if v in path {
      p := ComesRound(c, path, v);
    } else {
      var seen := set id | id in path;
      assert (set id | id in path + [v]) == seen + {v};
      assert v in blocked - seen && v !in blocked - (seen + {v});
      WalkExtends(c, path, v);
      p := RequestsComeRound(c, blocked, path + [v]);
    }
  }

  lemma WalkExtends(c: Catalog, path: seq<string>, v: string)
    requires path != [] && Walk(c, path) && c.Edge(path[|path| - 1], v)
    ensures Walk(c, path + [v])
  {
  }

  lemma ComesRound(c: Catalog, path: seq<string>, v: string) returns (p: seq<string>)
    requires Walk(c, path) && v in path && c.Edge(path[|path| - 1], v)
    ensures ClosedWalk(c, p)
  {
    var i :| 0 <= i < |path| && path[i] == v;
    p := path[i..] + [v];
    forall k | 0 <= k < |p| - 1 ensures c.Edge(p[k], p[k + 1]) {
      assert p[k] == path[i + k];
      assert k + 1 < |p| - 1 ==> p[k + 1] == path[i + k + 1];
    }
  }

  /** Some lesson of the set asks for none of the set. */
  lemma SomeAsksForNone(c: Catalog, left: set<string>) returns (id: string)
    requires Acyclic(c) && left != {}
    ensures id in left && !AsksWithin(c, left, id)
  {
    hide AsksWithin;
    if id' :| id' in left && !AsksWithin(c, left, id') {
      id := id';
    } else {
      hide Acyclic, ClosedWalk;
      id :| id in left;
      assert Walk(c, [id]);
      hide Walk;
      var p := RequestsComeRound(c, left, [id]);
      CycleContradicts(c, p);
    }
  }

  lemma CycleContradicts(c: Catalog, p: seq<string>)
    ensures Acyclic(c) ==> !ClosedWalk(c, p)
  {
  }

  /** In a consistent catalogue Guided Path never locks a learner out: whatever has been passed,
      if any lesson is left then some lesson that is left is open. */
  lemma NeverStuck(c: Catalog, progress: ProgressIndex)
    requires AllExist(c) && Acyclic(c)
    requires exists id :: id in c.lessons && !IsPassed(progress, id)
    ensures exists id :: id in c.lessons && !IsPassed(progress, id) && Unlocked(c, progress, id)
  {
    hide Unlocked, Acyclic;
    var left := set id | id in c.lessons && !IsPassed(progress, id);
    var some :| some in c.lessons && !IsPassed(progress, some);
    assert some in left;
    var id := SomeAsksForNone(c, left);
    UnlockedMeansPrerequisitesPassed(c, progress, id);
    forall v | v in c.Prerequisites(id) ensures IsPassed(progress, v) {
      assert c.Edge(id, v) && v !in left;
    }
  }

  // ---------------------------------------------------------------- schedules

  /** A schedule that at each moment passes a lesson that is open and not yet passed. */
  ghost predicate Playable(c: Catalog, progress: ProgressIndex, schedule: seq<string>)
    decreases |schedule|
  {
    schedule == [] ||
    (var id := schedule[0];
     && id in c.lessons && !IsPassed(progress, id) && Unlocked(c, progress, id)
     && Playable(c, Pass(progress, id), schedule[1..]))
  }

  function PassAll(progress: ProgressIndex, schedule: seq<string>): ProgressIndex
    decreases |schedule|
  {
    if schedule == [] then progress else PassAll(Pass(progress, schedule[0]), schedule[1..])
  }

  ghost predicate AllPassed(c: Catalog, progress: ProgressIndex) {
    forall id :: id in c.lessons ==> IsPassed(progress, id)
  }

  /** The lessons that are left. */
  ghost function Left(c: Catalog, progress: ProgressIndex): set<string> {
    set id | id in c.lessons && !IsPassed(progress, id)
  }

  lemma OneLess(c: Catalog, progress: ProgressIndex, id: string)
    requires id in Left(c, progress)
    ensures |Left(c, Pass(progress, id))| == |Left(c, progress)| - 1
  {
    assert Left(c, Pass(progress, id)) == Left(c, progress) - {id};
  }

  lemma PlayFirst(c: Catalog, progress: ProgressIndex, id: string, rest: seq<string>)
    requires id in Left(c, progress) && Unlocked(c, progress, id)
    requires Playable(c, Pass(progress, id), rest) && AllPassed(c, PassAll(Pass(progress, id), rest))
    ensures Playable(c, progress, [id] + rest) && AllPassed(c, PassAll(progress, [id] + rest))
  {
    hide Unlocked, AllPassed, Pass;
    assert ([id] + rest)[1..] == rest;
  }

  lemma NothingLeft(c: Catalog, progress: ProgressIndex)
    ensures Left(c, progress) == {} <==> AllPassed(c, progress)
  {
    assert forall id :: id in c.lessons && !IsPassed(progress, id) ==> id in Left(c, progress);
  }

  lemma SomeLeftIsOpen(c: Catalog, progress: ProgressIndex) returns (id: string)
    requires AllExist(c) && Acyclic(c) && Left(c, progress) != {}
    ensures id in Left(c, progress) && Unlocked(c, progress, id)
  {
    hide Unlocked, Acyclic, AllExist;
    var some :| some in Left(c, progress);
    NeverStuck(c, progress);
    id :| id in c.lessons && !IsPassed(progress, id) && Unlocked(c, progress, id);
  }

  /** From any progress, everything can be passed, one open lesson at a time, in as many steps
      as there are lessons left. */
  lemma {:induction false} CanFinish(c: Catalog, progress: ProgressIndex) returns (schedule: seq<string>)
    requires AllExist(c) && Acyclic(c)
    ensures Playable(c, progress, schedule) && AllPassed(c, PassAll(progress, schedule))
    ensures |schedule| == |Left(c, progress)|
    decreases |Left(c, progress)|
  {
    NothingLeft(c, progress);
    if Left(c, progress) == {} {
      schedule := [];
    } else {
      hide *;
      var id := SomeLeftIsOpen(c, progress);
      OneLess(c, progress, id);
      var rest := CanFinish(c, Pass(progress, id));
      PlayFirst(c, progress, id, rest);
      schedule := [id] + rest;
    }
  }

  /** The catalogues that a learner can finish from nothing. */
  ghost predicate Finishable(c: Catalog) {
    exists schedule :: Playable(c, map[], schedule) && AllPassed(c, PassAll(map[], schedule))
  }

  /** What is passed after `done` from nothing is what `done` lists. */
  lemma {:induction false} PassedAfter(progress: ProgressIndex, schedule: seq<string>, id: string)
    ensures IsPassed(PassAll(progress, schedule), id) <==> IsPassed(progress, id) || id in schedule
    decreases |schedule|
  {
    if schedule != [] {
      assert schedule == [schedule[0]] + schedule[1..];
      PassedAfter(Pass(progress, schedule[0]), schedule[1..], id);
    }
  }

  /** A playable schedule passes every prerequisite before the lesson that asks for it. */
  lemma {:induction false} PlayableOrder(c: Catalog, progress: ProgressIndex, schedule: seq<string>, i: nat, v: string)
    requires Playable(c, progress, schedule) && i < |schedule| && v in c.Prerequisites(schedule[i])
    ensures schedule[i] in c.lessons && (IsPassed(progress, v) || v in schedule[..i])
    decreases |schedule|
  {
    hide Unlocked;
    if i == 0 {
      UnlockedMeansPrerequisitesPassed(c, progress, schedule[0]);
    } else {
      PlayableOrder(c, Pass(progress, schedule[0]), schedule[1..], i - 1, v);
      hide Playable;
      assert schedule[..i] == [schedule[0]] + schedule[1..][..i - 1];
    }
  }

  lemma {:induction false} PlayableExists(c: Catalog, progress: ProgressIndex, schedule: seq<string>)
    requires Playable(c, progress, schedule)
    ensures forall id :: id in schedule ==> id in c.lessons
    decreases |schedule|
  {
    if schedule != [] {
      PlayableExists(c, Pass(progress, schedule[0]), schedule[1..]);
      assert schedule == [schedule[0]] + schedule[1..];
    }
  }

  /** The integrity check asks for exactly what is needed: a catalogue can be finished from
      nothing if and only if no prerequisite dangles and there is no cycle. */
  lemma FinishableExactlyWhenSound(c: Catalog)
    ensures Finishable(c) <==> AllExist(c) && Acyclic(c)
  {
    if AllExist(c) && Acyclic(c) {
      var schedule := CanFinish(c, map[]);
    }
    if Finishable(c) {
      var schedule :| Playable(c, map[], schedule) && AllPassed(c, PassAll(map[], schedule));
      PlayableExists(c, map[], schedule);
      forall id | id in c.lessons ensures id in schedule {
        PassedAfter(map[], schedule, id);
      }
      forall i, v | 0 <= i < |schedule| && v in c.Prerequisites(schedule[i]) ensures v in schedule[..i] {
        PlayableOrder(c, map[], schedule, i, v);
      }
      forall id, v | id in c.lessons && v in c.lessons[id].prerequisites ensures v in c.lessons {
        var i :| 0 <= i < |schedule| && schedule[i] == id;
        assert v in schedule[..i];
      }
      assert Settled(c, [], schedule);
      if p :| ClosedWalk(c, p) {
        WalkDescends(c, [], schedule, p);
      }
    }
  }

  // ---------------------------------------------------------------- Continue

  function NextLesson(c: Catalog, progress: ProgressIndex): Option<string> {
    FirstNotPassed(c.lessonOrder, progress)
  }

  function FirstNotPassed(ids: seq<string>, progress: ProgressIndex): Option<string> {
    if ids == [] then None
    else if !IsPassed(progress, ids[0]) then Some(ids[0])
    else FirstNotPassed(ids[1..], progress)
  }

  /** Every prerequisite of a core lesson is a core lesson taught earlier. */
  ghost predicate CoreInOrder(c: Catalog) {
    forall i, v :: 0 <= i < |c.lessonOrder| && v in c.Prerequisites(c.lessonOrder[i]) ==> v in c.lessonOrder[..i]
  }

  lemma {:induction false} FirstNotPassedAt(ids: seq<string>, progress: ProgressIndex)
    ensures match FirstNotPassed(ids, progress)
            case None => forall id :: id in ids ==> IsPassed(progress, id)
            case Some(id) => exists i :: 0 <= i < |ids| && ids[i] == id && !IsPassed(progress, id)
                                      && forall v :: v in ids[..i] ==> IsPassed(progress, v)
  {
    if ids != [] {
      FirstNotPassedAt(ids[1..], progress);
      assert ids == [ids[0]] + ids[1..];
      if !IsPassed(progress, ids[0]) {
        assert ids[..0] == [];
      } else if FirstNotPassed(ids[1..], progress).Some? {
        var i :| 0 <= i < |ids[1..]| && ids[1..][i] == FirstNotPassed(ids[1..], progress).value
                 && forall v :: v in ids[1..][..i] ==> IsPassed(progress, v);
        assert ids[..i + 1] == [ids[0]] + ids[1..][..i];
        assert ids[i + 1] == ids[1..][i];
      }
    }
  }

  /** Continue never opens a locked lesson, whatever has been passed. */
  ghost predicate ContinueNeverLocked(c: Catalog) {
    forall progress: ProgressIndex :: NextLesson(c, progress).Some? ==>
        Unlocked(c, progress, NextLesson(c, progress).value)
  }

  /** The learner who has passed exactly the lessons before number `i` is offered number `i`. */
  lemma OfferedNext(c: Catalog, i: nat) returns (progress: ProgressIndex)
    requires CoreOrder(c) && i < |c.lessonOrder|
    ensures NextLesson(c, progress) == Some(c.lessonOrder[i])
    ensures forall id :: IsPassed(progress, id) <==> id in c.lessonOrder[..i]
  {
    var earlier := c.lessonOrder[..i];
    progress := PassAll(map[], earlier);
    forall id ensures IsPassed(progress, id) <==> id in earlier {
      PassedAfter(map[], earlier, id);
    }
    assert forall j :: 0 <= j < i ==> c.lessonOrder[j] == earlier[j];
    FirstIsOffered(c.lessonOrder, progress, i);
  }

  lemma {:induction false} FirstIsOffered(ids: seq<string>, progress: ProgressIndex, i: nat)
    requires i < |ids| && !IsPassed(progress, ids[i])
    requires forall j :: 0 <= j < i ==> IsPassed(progress, ids[j])
    ensures FirstNotPassed(ids, progress) == Some(ids[i])
  {
    hide IsPassed;
    if i > 0 {
      FirstIsOffered(ids[1..], progress, i - 1);
    }
  }

  lemma NeverLockedIsInOrder(c: Catalog, i: nat, v: string)
    requires CoreOrder(c) && ContinueNeverLocked(c)
    requires i < |c.lessonOrder| && v in c.Prerequisites(c.lessonOrder[i])
    ensures v in c.lessonOrder[..i]
  {
    hide CoreOrder, IsPassed, Unlocked, NextLesson;
    var progress := OfferedNext(c, i);
    assert Unlocked(c, progress, c.lessonOrder[i]);
    UnlockedMeansPrerequisitesPassed(c, progress, c.lessonOrder[i]);
  }

  /** "Continue" never opens a locked lesson, for any progress at all, if and only if every
      prerequisite of a core lesson comes earlier in the teaching order. */
  lemma ContinueIsOpenExactlyInOrder(c: Catalog)
    requires CoreOrder(c)
    ensures CoreInOrder(c) <==> ContinueNeverLocked(c)
  {
    hide CoreOrder, Unlocked, NextLesson;
    if CoreInOrder(c) {
      forall progress: ProgressIndex | NextLesson(c, progress).Some?
        ensures Unlocked(c, progress, NextLesson(c, progress).value)
      {
        ContinueIsOpen(c, progress);
      }
    }
    if ContinueNeverLocked(c) {
      forall i, v | 0 <= i < |c.lessonOrder| && v in c.Prerequisites(c.lessonOrder[i])
        ensures v in c.lessonOrder[..i]
      {
        NeverLockedIsInOrder(c, i, v);
      }
    }
  }

  lemma ContinueIsOpen(c: Catalog, progress: ProgressIndex)
    requires CoreInOrder(c) && NextLesson(c, progress).Some?
    ensures Unlocked(c, progress, NextLesson(c, progress).value) && !IsPassed(progress, NextLesson(c, progress).value)
    ensures NextLesson(c, progress).value in c.lessonOrder
  {
    FirstNotPassedAt(c.lessonOrder, progress);
    UnlockedMeansPrerequisitesPassed(c, progress, NextLesson(c, progress).value);
  }

  /** The lessons that pressing "Continue" and passing what it opens leads through. */
  ghost function ContinueRun(c: Catalog, progress: ProgressIndex): seq<string>
    decreases |set id | id in c.lessonOrder && !IsPassed(progress, id)|
  {
    match NextLesson(c, progress)
    case None => []
    case Some(id) =>
      FirstNotPassedAt(c.lessonOrder, progress);
      assert (set x | x in c.lessonOrder && !IsPassed(Pass(progress, id), x))
          == (set x | x in c.lessonOrder && !IsPassed(progress, x)) - {id};
      [id] + ContinueRun(c, Pass(progress, id))
  }

  lemma {:induction false} NotPassedAfterPass(ids: seq<string>, progress: ProgressIndex)
    requires Distinct(ids) && FirstNotPassed(ids, progress).Some?
    ensures var id := FirstNotPassed(ids, progress).value;
      NotPassed(ids, progress) == [id] + NotPassed(ids, Pass(progress, id))
  {
    hide IsPassed, Pass, Distinct;
    var id := FirstNotPassed(ids, progress).value;
    PassAdds(progress, id);
    TailIsDistinct(ids);
    if IsPassed(progress, ids[0]) {
      NotPassedAfterPass(ids[1..], progress);
    } else {
      NotPassedSame(ids[1..], progress, Pass(progress, id));
    }
  }

  lemma PassAdds(progress: ProgressIndex, id: string)
    ensures forall x :: IsPassed(Pass(progress, id), x) <==> IsPassed(progress, x) || x == id
  {
  }

  lemma TailIsDistinct(ids: seq<string>)
    requires Distinct(ids) && ids != []
    ensures Distinct(ids[1..]) && ids[0] !in ids[1..]
  {
    assert forall i :: 0 <= i < |ids[1..]| ==> ids[1..][i] == ids[i + 1];
  }

  lemma {:induction false} NotPassedSame(ids: seq<string>, a: ProgressIndex, b: ProgressIndex)
    requires forall id :: id in ids ==> (IsPassed(a, id) <==> IsPassed(b, id))
    ensures NotPassed(ids, a) == NotPassed(ids, b)
  {
    if ids != [] {
      NotPassedSame(ids[1..], a, b);
    }
  }

  lemma NoMembers(s: seq<string>)
    ensures (forall id :: id !in s) ==> s == []
  {
    assert s != [] ==> s[0] in s;
  }

  /** Pressing "Continue" until it is done goes through exactly the core lessons that were not
      passed, in teaching order, each open when its turn comes, and then offers nothing. */
  lemma {:induction false} ContinueVisitsInOrder(c: Catalog, progress: ProgressIndex)
    requires CoreOrder(c)
    ensures ContinueRun(c, progress) == NotPassed(c.lessonOrder, progress)
    ensures NextLesson(c, PassAll(progress, ContinueRun(c, progress))) == None
    ensures CoreInOrder(c) ==> Playable(c, progress, ContinueRun(c, progress))
    decreases |set id | id in c.lessonOrder && !IsPassed(progress, id)|
  {
    FirstNotPassedAt(c.lessonOrder, progress);
    match NextLesson(c, progress)
    case None =>
      NoMembers(NotPassed(c.lessonOrder, progress));
    case Some(id) =>
      assert (set x | x in c.lessonOrder && !IsPassed(Pass(progress, id), x))
          == (set x | x in c.lessonOrder && !IsPassed(progress, x)) - {id};
      ContinueVisitsInOrder(c, Pass(progress, id));
      NotPassedAfterPass(c.lessonOrder, progress);
      assert ContinueRun(c, progress)[1..] == ContinueRun(c, Pass(progress, id));
      if CoreInOrder(c) { ContinueIsOpen(c, progress); }
  }

  // ---------------------------------------------------------------- the order check

  /** A core lesson and the prerequisite it should not have. */
  datatype OrderProblem = OrderProblem(lesson: string, prerequisite: string)

  /** Where a lesson stands in an order: its last place, should it be listed twice. */
  ghost predicate LastAt(order: seq<string>, id: string, n: nat) {
    n < |order| && order[n] == id && forall k :: n < k < |order| ==> order[k] != id
  }

  ghost predicate TaughtLater(c: Catalog, lesson: string, prerequisite: string) {
    exists own: nat, other: nat :: own < other && LastAt(c.lessonOrder, lesson, own)
        && LastAt(c.lessonOrder, prerequisite, other)
  }

  lemma LastAtIsUnique(order: seq<string>, id: string, m: nat, n: nat)
    requires LastAt(order, id, m) && LastAt(order, id, n)
    ensures m == n
  {
  }

  /** The map from lessons to places, in which a later place replaces an earlier one. */
  ghost predicate Positions(order: seq<string>, position: map<string, nat>) {
    && (forall id :: id in position <==> id in order)
    && forall id :: id in position ==> LastAt(order, id, position[id])
  }

  lemma PositionsNext(order: seq<string>, n: nat, position: map<string, nat>)
    requires n < |order| && Positions(order[..n], position)
    ensures Positions(order[..n + 1], position[order[n] := n])
  {
    var id, more := order[n], order[..n + 1];
    assert more == order[..n] + [id];
    var next := position[id := n];
    forall x | x in next ensures LastAt(more, x, next[x]) {
    }
  }

  method PlaceLessons(order: seq<string>) returns (position: map<string, nat>)
    ensures Positions(order, position)
  {
    position := map[];
    for n := 0 to |order|
      invariant Positions(order[..n], position)
    {
      PositionsNext(order, n, position);
      hide Positions;
      position := position[order[n] := n];
    }
    assert order[..|order|] == order;
  }

  /** The curriculum check of the authoring script: positions are looked up in a map, and only
      prerequisites that are core lessons themselves are compared. */
  method OrderCheck(c: Catalog) returns (problems: seq<OrderProblem>)
    requires c.Listed()
    ensures forall x: OrderProblem :: x in problems <==>
              x.prerequisite in c.Prerequisites(x.lesson) && TaughtLater(c, x.lesson, x.prerequisite)
  {
    hide Positions, TaughtLater, LastAt;
    var position := PlaceLessons(c.lessonOrder);
    problems := [];
    for n := 0 to |c.lessonIds|
      invariant forall x :: x in problems <==> x.lesson in c.lessonIds[..n] && Late(c, position, x)
    {
      assert c.lessonIds[..n + 1] == c.lessonIds[..n] + [c.lessonIds[n]];
      var more := OrderProblems(c, position, c.lessonIds[n]);
      problems := problems + more;
    }
    assert c.lessonIds[..|c.lessonIds|] == c.lessonIds;
    forall x: OrderProblem
      ensures x.lesson in c.lessonIds && Late(c, position, x)
         <==> x.prerequisite in c.Prerequisites(x.lesson) && TaughtLater(c, x.lesson, x.prerequisite)
    {
      LateIsTaughtLater(c, position, x);
    }
  }

  method OrderProblems(c: Catalog, position: map<string, nat>, id: string) returns (problems: seq<OrderProblem>)
    ensures forall x :: x in problems <==> x.lesson == id && Late(c, position, x)
  {
    problems := [];
    if id in position {
      var own, prerequisites := position[id], c.Prerequisites(id);
      for m := 0 to |prerequisites|
        invariant forall x :: x in problems <==>
                    x.lesson == id && x.prerequisite in prerequisites[..m] && Late(c, position, x)
      {
        assert prerequisites[..m + 1] == prerequisites[..m] + [prerequisites[m]];
        if prerequisites[m] in position && position[prerequisites[m]] > own {
          problems := problems + [OrderProblem(id, prerequisites[m])];
        }
      }
      assert prerequisites[..|prerequisites|] == prerequisites;
    }
  }

  ghost predicate Late(c: Catalog, position: map<string, nat>, x: OrderProblem) {
    && x.prerequisite in c.Prerequisites(x.lesson)
    && x.lesson in position && x.prerequisite in position && position[x.prerequisite] > position[x.lesson]
  }

  lemma LateIsTaughtLater(c: Catalog, position: map<string, nat>, x: OrderProblem)
    requires Positions(c.lessonOrder, position)
    ensures Late(c, position, x) <==>
              x.prerequisite in c.Prerequisites(x.lesson) && TaughtLater(c, x.lesson, x.prerequisite)
  {
    var order := c.lessonOrder;
    if TaughtLater(c, x.lesson, x.prerequisite) {
      var own: nat, other: nat :| own < other && LastAt(order, x.lesson, own) && LastAt(order, x.prerequisite, other);
      assert order[own] in order && order[other] in order;
      LastAtIsUnique(order, x.lesson, own, position[x.lesson]);
      LastAtIsUnique(order, x.prerequisite, other, position[x.prerequisite]);
    }
  }

  lemma LastAtWhenDistinct(order: seq<string>, n: nat)
    requires Distinct(order) && n < |order|
    ensures LastAt(order, order[n], n)
  {
  }

  /** The check alone does not put the core in order; it does together with the two things it
      passes over: core lessons ask only for core lessons, and none asks for itself. */
  lemma OrderCheckIsCoreInOrder(c: Catalog)
    requires CoreOrder(c)
    ensures CoreInOrder(c) <==>
      forall id, v :: id in c.lessonOrder && v in c.Prerequisites(id) ==>
        v in c.lessonOrder && v != id && !TaughtLater(c, id, v)
  {
    if CoreInOrder(c) {
      forall id, v | id in c.lessonOrder && v in c.Prerequisites(id)
        ensures v in c.lessonOrder && v != id && !TaughtLater(c, id, v)
      {
        var i :| 0 <= i < |c.lessonOrder| && c.lessonOrder[i] == id;
        assert v in c.lessonOrder[..i];
        var j :| 0 <= j < i && c.lessonOrder[j] == v;
      }
    }
    if forall id, v :: id in c.lessonOrder && v in c.Prerequisites(id) ==>
         v in c.lessonOrder && v != id && !TaughtLater(c, id, v)
    {
      forall i, v | 0 <= i < |c.lessonOrder| && v in c.Prerequisites(c.lessonOrder[i])
        ensures v in c.lessonOrder[..i]
      {
        assert c.lessonOrder[i] in c.lessonOrder && v in c.lessonOrder;
        var j :| 0 <= j < |c.lessonOrder| && c.lessonOrder[j] == v;
        LastAtWhenDistinct(c.lessonOrder, i);
        LastAtWhenDistinct(c.lessonOrder, j);
        assert !TaughtLater(c, c.lessonOrder[i], v);
        assert j < i;
      }
    }
  }
}
