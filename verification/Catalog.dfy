/** The lesson catalogue: loading, referential integrity and the search for prerequisite cycles
    (crates/lesson-engine/src/catalog.rs). */
module LessonCatalog {
  import opened Prelude
  import opened ValidatorRegistry

  // ---------------------------------------------------------------- data

  datatype Task = Task(id: string, validators: seq<Validator>)

  datatype Lesson = Lesson(id: string, moduleId: string, prerequisites: seq<string>, tasks: seq<Task>)

  datatype Module = Module(id: string, pack: string, number: int, lessons: seq<string>)

  /** `lessonIds` and `moduleIds` list the keys of the two maps in the order in which they are
      iterated; no property here depends on which order that is.  `lessonOrder` is the teaching
      order of the core lessons. */
  datatype Catalog = Catalog(
    lessons: map<string, Lesson>, lessonIds: seq<string>,
    modules: map<string, Module>, moduleIds: seq<string>,
    lessonOrder: seq<string>)
  {
    ghost predicate Listed() {
      && (forall id :: id in lessonIds <==> id in lessons)
      && (forall id :: id in moduleIds <==> id in modules)
    }

    function Prerequisites(id: string): seq<string> {
      if id in lessons then lessons[id].prerequisites else []
    }

    /** `id` asks for `prerequisite`, and both exist. */
    predicate Edge(id: string, prerequisite: string) {
      id in lessons && prerequisite in lessons && prerequisite in lessons[id].prerequisites
    }
  }

  ghost predicate Distinct(s: seq<string>) {
    forall i, j :: 0 <= i < j < |s| ==> s[i] != s[j]
  }

  ghost predicate Walk(c: Catalog, p: seq<string>) {
    forall i :: 0 <= i < |p| - 1 ==> c.Edge(p[i], p[i + 1])
  }

  ghost predicate ClosedWalk(c: Catalog, p: seq<string>) {
    |p| >= 2 && p[0] == p[|p| - 1] && Walk(c, p)
  }

  ghost predicate SimpleCycle(c: Catalog, p: seq<string>) {
    ClosedWalk(c, p) && Distinct(p[..|p| - 1])
  }

  ghost predicate Acyclic(c: Catalog) {
    !exists p :: ClosedWalk(c, p)
  }

  /** Some reported cycle is closed by the edge from `u` to `v`. */
  ghost predicate Closes(cycles: seq<seq<string>>, u: string, v: string) {
    exists p :: p in cycles && |p| >= 2 && p[|p| - 2] == u && p[|p| - 1] == v
  }

  /** How often `x` occurs in `s`. */
  ghost function Times<T>(s: seq<T>, x: T): nat {
    multiset(s)[x]
  }

  lemma TimesMore<T>(s: seq<T>, y: T, x: T)
    ensures Times(s + [y], x) == Times(s, x) + if x == y then 1 else 0
  {
  }

  lemma TimesNext<T>(s: seq<T>, n: nat, x: T)
    requires n < |s|
    ensures Times(s[..n + 1], x) == Times(s[..n], x) + if x == s[n] then 1 else 0
  {
    hide Times;
    assert s[..n + 1] == s[..n] + [s[n]];
    TimesMore(s[..n], s[n], x);
  }

  lemma TimesIn<T>(s: seq<T>, x: T)
    ensures x in s <==> Times(s, x) > 0
  {
    assert x in s <==> x in multiset(s);
  }

  predicate SameClosing(p: seq<string>, q: seq<string>) {
    |p| >= 2 && |q| >= 2 && p[|p| - 2] == q[|q| - 2] && p[|p| - 1] == q[|q| - 1]
  }

  /** No two lists are closed by the same edge. */
  ghost predicate OneEach(cycles: seq<seq<string>>) {
    forall p, q :: p in cycles && q in cycles && SameClosing(p, q) ==> p == q
  }

  /** How often the lesson before the end of `p` lists the lesson at its end. */
  ghost function Listings(c: Catalog, p: seq<string>): nat
    requires |p| >= 2
  {
    Times(c.Prerequisites(p[|p| - 2]), p[|p| - 1])
  }

  /** Each list is reported exactly as often as the prerequisite of its closing edge is listed, and no
      two lists are closed by the same edge. */
  ghost predicate ReportedAsListed(c: Catalog, cycles: seq<seq<string>>) {
    && (forall p :: p in cycles ==> |p| >= 2 && Times(cycles, p) == Listings(c, p))
    && OneEach(cycles)
  }

  // ---------------------------------------------------------------- the search

  datatype Mark = Open | Done

  function Position(s: seq<string>, x: string): (r: Option<nat>)
    ensures r.Some? ==> r.value < |s| && s[r.value] == x
    ensures r.None? <==> x !in s
  {
    if s == [] then None
    else if s[0] == x then Some(0)
    else
      match Position(s[1..], x)
      case Some(n) => Some(n + 1)
      case None => None
  }

  /** Marks, stack and the two records agree: open lessons are on the stack, done ones are finished,
      with all their prerequisites followed. */
  ghost predicate MarksOk(c: Catalog, marks: map<string, Mark>, stack: seq<string>, finished: seq<string>,
                          seen: map<string, nat>) {
    && marks.Keys <= c.lessons.Keys && seen.Keys == marks.Keys
    && (forall id :: id in stack <==> id in marks && marks[id] == Open)
    && (forall id :: id in finished <==> id in marks && marks[id] == Done)
    && (forall id :: id in seen ==> seen[id] <= |c.Prerequisites(id)|)
    && forall id :: id in finished ==> seen[id] == |c.Prerequisites(id)|
  }

  /** Every prerequisite followed so far is finished, or its edge closes a reported list. */
  ghost predicate Attended(c: Catalog, cycles: seq<seq<string>>, finished: seq<string>, seen: map<string, nat>) {
    forall id, j :: id in seen && 0 <= j < seen[id] && j < |c.Prerequisites(id)| ==>
      Handled(c, cycles, finished, id, c.Prerequisites(id)[j])
  }

  ghost predicate Handled(c: Catalog, cycles: seq<seq<string>>, finished: seq<string>, id: string, v: string) {
    v in c.lessons ==> v in finished || Closes(cycles, id, v)
  }

  /** A reported list occurs as often as the prerequisite of its closing edge among those followed so
      far. */
  ghost predicate Counted(c: Catalog, cycles: seq<seq<string>>, seen: map<string, nat>) {
    forall p :: p in cycles ==> |p| >= 2 && p[|p| - 2] in seen && Times(cycles, p) == Followed(c, seen, p)
  }

  ghost function Followed(c: Catalog, seen: map<string, nat>, p: seq<string>): nat
    requires |p| >= 2 && p[|p| - 2] in seen
  {
    var id, n := p[|p| - 2], seen[p[|p| - 2]];
    if n <= |c.Prerequisites(id)| then Times(c.Prerequisites(id)[..n], p[|p| - 1]) else 0
  }

  /** `p` goes along the stack to position `k` and back to where it started. */
  ghost predicate EndsAt(stack: seq<string>, k: nat, p: seq<string>) {
    k < |stack| && 2 <= |p| <= k + 2 && p[..|p| - 1] == stack[k + 2 - |p|..k + 1] && p[0] == p[|p| - 1]
  }

  /** A list that a lesson on the stack closes is the end of the stack up to that lesson. */
  ghost predicate Anchored(cycles: seq<seq<string>>, stack: seq<string>) {
    forall p, k :: p in cycles && 0 <= k < |stack| && |p| >= 2 && p[|p| - 2] == stack[k] ==> EndsAt(stack, k, p)
  }

  ghost predicate AllSimple(c: Catalog, cycles: seq<seq<string>>) {
    forall p :: p in cycles ==> SimpleCycle(c, p)
  }

  /** What the search keeps. */
  ghost predicate SearchOk(c: Catalog, marks: map<string, Mark>, stack: seq<string>, cycles: seq<seq<string>>,
                           finished: seq<string>, seen: map<string, nat>) {
    && MarksOk(c, marks, stack, finished, seen)
    && Distinct(stack) && Walk(c, stack)
    && AllSimple(c, cycles) && Settled(c, cycles, finished) && Attended(c, cycles, finished, seen)
    && Counted(c, cycles, seen) && OneEach(cycles) && Anchored(cycles, stack)
  }

  /** `id` is the prerequisite that the lesson on top of the stack follows next. */
  ghost predicate IsNext(c: Catalog, stack: seq<string>, seen: map<string, nat>, id: string) {
    && stack != [] && stack[|stack| - 1] in seen
    && seen[stack[|stack| - 1]] < |c.Prerequisites(stack[|stack| - 1])|
    && c.Prerequisites(stack[|stack| - 1])[seen[stack[|stack| - 1]]] == id
  }

  /** One more prerequisite of the top of the stack was followed. */
  function Bumped(stack: seq<string>, seen: map<string, nat>): map<string, nat>
    requires stack != [] && stack[|stack| - 1] in seen
  {
    seen[stack[|stack| - 1] := seen[stack[|stack| - 1]] + 1]
  }

  // ---------------------------------------------------------------- steps of the search

  lemma EnterKeeps(c: Catalog, marks: map<string, Mark>, stack: seq<string>, cycles: seq<seq<string>>,
                   finished: seq<string>, seen: map<string, nat>, id: string)
    requires SearchOk(c, marks, stack, cycles, finished, seen) && id in c.lessons && id !in marks
    requires stack == [] || c.Edge(stack[|stack| - 1], id)
    ensures SearchOk(c, marks[id := Open], stack + [id], cycles, finished, seen[id := 0])
  {
    hide Distinct, Walk, AllSimple, Settled, Counted, OneEach, Anchored, Handled, Attended, MarksOk;
    EnterMarks(c, marks, stack, finished, seen, id);
    Extend(c, stack, id);
    EnterAttended(c, cycles, finished, seen, id);
    EnterCounted(c, cycles, seen, id);
    EnterAnchored(c, cycles, stack, seen, id);
  }

  lemma EnterMarks(c: Catalog, marks: map<string, Mark>, stack: seq<string>, finished: seq<string>,
                   seen: map<string, nat>, id: string)
    requires MarksOk(c, marks, stack, finished, seen) && id in c.lessons && id !in marks
    ensures MarksOk(c, marks[id := Open], stack + [id], finished, seen[id := 0]) && id !in stack && id !in seen
  {
    hide Catalog.Prerequisites;
  }

  lemma EnterAttended(c: Catalog, cycles: seq<seq<string>>, finished: seq<string>, seen: map<string, nat>, id: string)
    requires Attended(c, cycles, finished, seen)
    ensures Attended(c, cycles, finished, seen[id := 0])
  {
    hide Handled;
  }

  lemma EnterCounted(c: Catalog, cycles: seq<seq<string>>, seen: map<string, nat>, id: string)
    requires Counted(c, cycles, seen) && id !in seen
    ensures Counted(c, cycles, seen[id := 0])
  {
    hide Times;
  }

  lemma EnterAnchored(c: Catalog, cycles: seq<seq<string>>, stack: seq<string>, seen: map<string, nat>, id: string)
    requires Anchored(cycles, stack) && Counted(c, cycles, seen) && id !in seen
    ensures Anchored(cycles, stack + [id])
  {
    hide EndsAt, Followed, Times;
    forall p, k | p in cycles && 0 <= k < |stack + [id]| && |p| >= 2 && p[|p| - 2] == (stack + [id])[k]
      ensures EndsAt(stack + [id], k, p)
    {
      assert k < |stack|;
      EndsAtStays(stack, stack + [id], k, p);
    }
  }

  lemma EndsAtStays(a: seq<string>, b: seq<string>, k: nat, p: seq<string>)
    requires k < |a| && k < |b| && a[..k + 1] == b[..k + 1] && EndsAt(a, k, p)
    ensures EndsAt(b, k, p)
  {
    assert a[k + 2 - |p|..k + 1] == a[..k + 1][k + 2 - |p|..];
    assert b[k + 2 - |p|..k + 1] == b[..k + 1][k + 2 - |p|..];
  }

  lemma LeaveKeeps(c: Catalog, marks: map<string, Mark>, stack: seq<string>, cycles: seq<seq<string>>,
                   finished: seq<string>, seen: map<string, nat>, id: string)
    requires SearchOk(c, marks, stack, cycles, finished, seen) && stack != [] && stack[|stack| - 1] == id
    requires id in seen && seen[id] == |c.Prerequisites(id)|
    ensures SearchOk(c, marks[id := Done], stack[..|stack| - 1], cycles, finished + [id], seen)
  {
    hide MarksOk, AllSimple, Settled, Counted, OneEach, Anchored, Closes, Attended, Distinct, Walk;
    LeaveMarks(c, marks, stack, finished, seen, id);
    WalkShortens(c, stack);
    AllHandled(c, cycles, finished, seen, id);
    SettledExtends(c, cycles, finished, id);
    AttendedGrows(c, cycles, cycles, finished, finished + [id], seen);
    LeaveAnchored(cycles, stack);
  }

  lemma LeaveMarks(c: Catalog, marks: map<string, Mark>, stack: seq<string>, finished: seq<string>,
                   seen: map<string, nat>, id: string)
    requires MarksOk(c, marks, stack, finished, seen) && Distinct(stack) && stack != []
    requires stack[|stack| - 1] == id && id in seen && seen[id] == |c.Prerequisites(id)|
    ensures MarksOk(c, marks[id := Done], stack[..|stack| - 1], finished + [id], seen)
  {
    hide Distinct, Walk, Catalog.Edge, Catalog.Prerequisites;
    TopIsFresh(stack, stack[..|stack| - 1], id);
  }

  lemma TopIsFresh(stack: seq<string>, front: seq<string>, id: string)
    requires stack == front + [id] && Distinct(stack)
    ensures forall x :: x in stack <==> x in front || x == id
    ensures id !in front
  {
    forall i | 0 <= i < |front| ensures front[i] != id {
      assert stack[i] == front[i] && stack[|front|] == id;
    }
  }

  lemma WalkShortens(c: Catalog, stack: seq<string>)
    requires Distinct(stack) && Walk(c, stack) && stack != []
    ensures Distinct(stack[..|stack| - 1]) && Walk(c, stack[..|stack| - 1])
  {
  }

  lemma AllHandled(c: Catalog, cycles: seq<seq<string>>, finished: seq<string>, seen: map<string, nat>, id: string)
    requires Attended(c, cycles, finished, seen) && id in seen && seen[id] == |c.Prerequisites(id)|
    ensures forall v :: c.Edge(id, v) ==> v in finished || Closes(cycles, id, v)
  {
    hide Closes;
    forall v | c.Edge(id, v) ensures Handled(c, cycles, finished, id, v) {
      var j :| 0 <= j < |c.Prerequisites(id)| && c.Prerequisites(id)[j] == v;
    }
  }

  lemma AttendedGrows(c: Catalog, a: seq<seq<string>>, b: seq<seq<string>>, finished: seq<string>, more: seq<string>,
                      seen: map<string, nat>)
    requires Attended(c, a, finished, seen) && a <= b && finished <= more
    ensures Attended(c, b, more, seen)
  {
    ClosesGrows(a, b);
    hide Closes;
    assert forall x :: x in finished ==> x in more;
    forall id, j | id in seen && 0 <= j < seen[id] && j < |c.Prerequisites(id)|
      ensures Handled(c, b, more, id, c.Prerequisites(id)[j])
    {
      assert Handled(c, a, finished, id, c.Prerequisites(id)[j]);
    }
  }

  lemma AttendedNext(c: Catalog, cycles: seq<seq<string>>, stack: seq<string>, finished: seq<string>,
                     seen: map<string, nat>, id: string)
    requires Attended(c, cycles, finished, seen) && IsNext(c, stack, seen, id)
    requires Handled(c, cycles, finished, stack[|stack| - 1], id)
    ensures Attended(c, cycles, finished, Bumped(stack, seen))
  {
    hide Handled;
  }

  lemma LeaveAnchored(cycles: seq<seq<string>>, stack: seq<string>)
    requires Anchored(cycles, stack) && stack != []
    ensures Anchored(cycles, stack[..|stack| - 1])
  {
    hide EndsAt;
    var front := stack[..|stack| - 1];
    forall p, k | p in cycles && 0 <= k < |front| && |p| >= 2 && p[|p| - 2] == front[k]
      ensures EndsAt(front, k, p)
    {
      assert stack[k] == front[k];
      assert stack[..k + 1] == front[..k + 1];
      EndsAtStays(stack, front, k, p);
    }
  }

  lemma ClosesOnStack(stack: seq<string>, k: nat, p: seq<string>)
    requires EndsAt(stack, k, p)
    ensures p[|p| - 1] in stack
  {
    assert p[..|p| - 1][0] == stack[k + 2 - |p|];
  }

  /** A prerequisite that is not on the stack closes no list that the top of the stack reported. */
  lemma SkipKeeps(c: Catalog, marks: map<string, Mark>, stack: seq<string>, cycles: seq<seq<string>>,
                  finished: seq<string>, seen: map<string, nat>, id: string)
    requires SearchOk(c, marks, stack, cycles, finished, seen) && IsNext(c, stack, seen, id)
    requires id !in c.lessons || id in finished
    ensures SearchOk(c, marks, stack, cycles, finished, Bumped(stack, seen))
  {
    hide Distinct, Walk, AllSimple, Settled, Counted, OneEach, Anchored, Attended;
    OffStack(c, marks, stack, finished, seen, id);
    AttendedNext(c, cycles, stack, finished, seen, id);
    BumpMarks(c, marks, stack, finished, seen, id);
    SkipCounted(c, cycles, stack, seen, id);
  }

  lemma OffStack(c: Catalog, marks: map<string, Mark>, stack: seq<string>, finished: seq<string>,
                 seen: map<string, nat>, id: string)
    requires MarksOk(c, marks, stack, finished, seen) && (id !in c.lessons || id in finished)
    ensures id !in stack
  {
  }

  lemma BumpMarks(c: Catalog, marks: map<string, Mark>, stack: seq<string>, finished: seq<string>,
                  seen: map<string, nat>, id: string)
    requires MarksOk(c, marks, stack, finished, seen) && IsNext(c, stack, seen, id)
    ensures MarksOk(c, marks, stack, finished, Bumped(stack, seen))
  {
    assert stack[|stack| - 1] in stack;
  }

  lemma SkipCounted(c: Catalog, cycles: seq<seq<string>>, stack: seq<string>, seen: map<string, nat>, id: string)
    requires Counted(c, cycles, seen) && Anchored(cycles, stack) && IsNext(c, stack, seen, id) && id !in stack
    ensures Counted(c, cycles, Bumped(stack, seen))
  {
    hide EndsAt, Followed, Times;
    forall p | p in cycles
      ensures |p| >= 2 && p[|p| - 2] in seen && Followed(c, Bumped(stack, seen), p) == Followed(c, seen, p)
    {
      assert |p| >= 2;
      if p[|p| - 2] == stack[|stack| - 1] {
        ClosesOnStack(stack, |stack| - 1, p);
      }
      FollowedNext(c, stack, seen, id, p);
    }
  }

  lemma FollowedNext(c: Catalog, stack: seq<string>, seen: map<string, nat>, id: string, p: seq<string>)
    requires IsNext(c, stack, seen, id) && |p| >= 2 && p[|p| - 2] in seen
    ensures Followed(c, Bumped(stack, seen), p)
         == Followed(c, seen, p) + if p[|p| - 2] == stack[|stack| - 1] && p[|p| - 1] == id then 1 else 0
  {
    hide Times;
    var top := stack[|stack| - 1];
    TimesNext(c.Prerequisites(top), seen[top], p[|p| - 1]);
  }

  /** The loop that a back edge closes. */
  function Loop(stack: seq<string>, start: nat, id: string): seq<string>
    requires start < |stack|
  {
    stack[start..] + [id]
  }

  lemma ReportKeeps(c: Catalog, marks: map<string, Mark>, stack: seq<string>, cycles: seq<seq<string>>,
                    finished: seq<string>, seen: map<string, nat>, start: nat, id: string)
    requires SearchOk(c, marks, stack, cycles, finished, seen) && IsNext(c, stack, seen, id)
    requires start < |stack| && stack[start] == id && c.Edge(stack[|stack| - 1], id)
    ensures SearchOk(c, marks, stack, cycles + [Loop(stack, start, id)], finished, Bumped(stack, seen))
  {
    hide Distinct, Walk, Settled, Counted, OneEach, Anchored, AllSimple, Attended, Loop;
    var cycle, more := Loop(stack, start, id), cycles + [Loop(stack, start, id)];
    LoopIs(stack, start, id);
    BumpMarks(c, marks, stack, finished, seen, id);
    ReportedIsSimple(c, stack, start, id);
    OneMoreSimple(c, cycles, cycle);
    SettledGrows(c, cycles, cycles + [cycle], finished);
    LoopEndsAt(stack, start, id);
    ReportOneEach(cycles, stack, cycle);
    ReportAnchored(cycles, stack, cycle);
    LoopCloses(cycles, stack, start, id);
    AttendedGrows(c, cycles, more, finished, finished, seen);
    AttendedNext(c, more, stack, finished, seen, id);
    NotFinished(c, marks, stack, finished, seen, start);
    forall p | p in cycles && SameClosing(p, cycle) ensures p == cycle {
      SameAsReported(cycles, stack, cycle, p);
    }
    NotYetReported(c, cycles, stack, finished, seen, cycle);
    ReportCounted(c, cycles, stack, seen, cycle);
  }

  lemma LoopIs(stack: seq<string>, start: nat, id: string)
    requires start < |stack|
    ensures Loop(stack, start, id) == stack[start..] + [id]
  {
  }

  lemma NotFinished(c: Catalog, marks: map<string, Mark>, stack: seq<string>, finished: seq<string>,
                    seen: map<string, nat>, start: nat)
    requires MarksOk(c, marks, stack, finished, seen) && start < |stack|
    ensures stack[start] !in finished && stack[start] in c.lessons
  {
    assert stack[start] in stack;
  }

  /** If the loop was not reported yet, its closing prerequisite was not followed yet. */
  lemma NotYetReported(c: Catalog, cycles: seq<seq<string>>, stack: seq<string>, finished: seq<string>,
                       seen: map<string, nat>, cycle: seq<string>)
    requires Attended(c, cycles, finished, seen) && |cycle| >= 2 && IsNext(c, stack, seen, cycle[|cycle| - 1])
    requires cycle[|cycle| - 2] == stack[|stack| - 1]
    requires cycle[|cycle| - 1] in c.lessons && cycle[|cycle| - 1] !in finished
    requires forall p :: p in cycles && SameClosing(p, cycle) ==> p == cycle
    ensures cycle !in cycles ==> Followed(c, seen, cycle) == 0
  {
    var top, id := stack[|stack| - 1], cycle[|cycle| - 1];
    var followed := c.Prerequisites(top)[..seen[top]];
    if id in followed {
      var j :| 0 <= j < |followed| && followed[j] == id;
      assert Handled(c, cycles, finished, top, c.Prerequisites(top)[j]);
    } else {
      TimesIn(followed, id);
    }
  }

  lemma OneMoreSimple(c: Catalog, cycles: seq<seq<string>>, cycle: seq<string>)
    requires AllSimple(c, cycles) && SimpleCycle(c, cycle)
    ensures AllSimple(c, cycles + [cycle])
  {
    hide SimpleCycle;
  }

  lemma LoopEndsAt(stack: seq<string>, start: nat, id: string)
    requires start < |stack| && stack[start] == id
    ensures var p := Loop(stack, start, id);
      EndsAt(stack, |stack| - 1, p) && p[|p| - 2] == stack[|stack| - 1] && p[|p| - 1] == id
  {
    var p := Loop(stack, start, id);
    assert p[..|p| - 1] == stack[start..];
  }

  /** On a stack without repetition a closing edge determines the list. */
  lemma EndsAtIsUnique(stack: seq<string>, k: nat, p: seq<string>, q: seq<string>)
    requires Distinct(stack) && EndsAt(stack, k, p) && EndsAt(stack, k, q) && p[|p| - 1] == q[|q| - 1]
    ensures p == q
  {
    assert p[..|p| - 1][0] == stack[k + 2 - |p|] && q[..|q| - 1][0] == stack[k + 2 - |q|];
    assert |p| == |q|;
    assert p == p[..|p| - 1] + [p[|p| - 1]] && q == q[..|q| - 1] + [q[|q| - 1]];
  }

  lemma SameAsReported(cycles: seq<seq<string>>, stack: seq<string>, cycle: seq<string>, p: seq<string>)
    requires Anchored(cycles, stack) && Distinct(stack) && stack != []
    requires |cycle| >= 2 && cycle[|cycle| - 2] == stack[|stack| - 1] && EndsAt(stack, |stack| - 1, cycle)
    requires p in cycles && SameClosing(p, cycle)
    ensures p == cycle
  {
    hide EndsAt, Distinct;
    assert EndsAt(stack, |stack| - 1, p);
    EndsAtIsUnique(stack, |stack| - 1, p, cycle);
  }

  lemma ReportOneEach(cycles: seq<seq<string>>, stack: seq<string>, cycle: seq<string>)
    requires OneEach(cycles) && Anchored(cycles, stack) && Distinct(stack) && stack != []
    requires |cycle| >= 2 && cycle[|cycle| - 2] == stack[|stack| - 1] && EndsAt(stack, |stack| - 1, cycle)
    ensures OneEach(cycles + [cycle])
  {
    hide EndsAt, Distinct, Anchored;
    forall p | p in cycles && SameClosing(p, cycle) ensures p == cycle {
      SameAsReported(cycles, stack, cycle, p);
    }
  }

  lemma ReportAnchored(cycles: seq<seq<string>>, stack: seq<string>, cycle: seq<string>)
    requires Anchored(cycles, stack) && Distinct(stack) && stack != []
    requires |cycle| >= 2 && cycle[|cycle| - 2] == stack[|stack| - 1] && EndsAt(stack, |stack| - 1, cycle)
    ensures Anchored(cycles + [cycle], stack)
  {
    hide EndsAt;
  }

  lemma ReportCounted(c: Catalog, cycles: seq<seq<string>>, stack: seq<string>, seen: map<string, nat>,
                      cycle: seq<string>)
    requires Counted(c, cycles, seen) && |cycle| >= 2 && IsNext(c, stack, seen, cycle[|cycle| - 1])
    requires cycle[|cycle| - 2] == stack[|stack| - 1]
    requires forall p :: p in cycles && SameClosing(p, cycle) ==> p == cycle
    requires cycle !in cycles ==> Followed(c, seen, cycle) == 0
    ensures Counted(c, cycles + [cycle], Bumped(stack, seen))
  {
    hide Times, Followed;
    forall p | p in cycles + [cycle]
      ensures |p| >= 2 && p[|p| - 2] in seen && Times(cycles + [cycle], p) == Followed(c, Bumped(stack, seen), p)
    {
      assert p in cycles || p == cycle;
      TimesIn(cycles, p);
      TimesMore(cycles, cycle, p);
      FollowedNext(c, stack, seen, cycle[|cycle| - 1], p);
    }
  }

  // ---------------------------------------------------------------- the search in place

  /** The variables that `visit` threads through its calls.  `finished` lists the lessons marked
      done in the order in which that happened, and `seen` says how many prerequisites of a marked
      lesson were followed. */
  class CycleSearch {
    const catalog: Catalog
    var marks: map<string, Mark>
    var stack: seq<string>
    var cycles: seq<seq<string>>
    ghost var finished: seq<string>
    ghost var seen: map<string, nat>

    ghost predicate Valid()
      reads this
    {
      SearchOk(catalog, marks, stack, cycles, finished, seen)
    }

    constructor (c: Catalog)
      ensures Valid() && catalog == c && stack == [] && marks == map[] && cycles == []
    {
      catalog := c;
      marks, stack, cycles, finished, seen := map[], [], [], [], map[];
    }

    /** The branch for a lesson that is still open: report the loop from where it started. */
    method ReportBackEdge(id: string)
      requires Valid() && id in stack && IsNext(catalog, stack, seen, id) && catalog.Edge(stack[|stack| - 1], id)
      modifies this`cycles, this`seen
      ensures Valid() && old(cycles) <= cycles
      ensures seen == Bumped(stack, old(seen))
    {
      hide SearchOk, Closes;
      var start := Position(stack, id);
      if start.Some? {
        ReportKeeps(catalog, marks, stack, cycles, finished, seen, start.value, id);
        LoopIs(stack, start.value, id);
        cycles := cycles + [stack[start.value..] + [id]];
        seen := Bumped(stack, seen);
      }
    }

    method Enter(id: string)
      requires Valid() && id in catalog.lessons && id !in marks
      requires stack == [] || catalog.Edge(stack[|stack| - 1], id)
      modifies this`marks, this`stack, this`seen
      ensures Valid() && marks == old(marks)[id := Open] && stack == old(stack) + [id] && seen == old(seen)[id := 0]
    {
      hide SearchOk;
      EnterKeeps(catalog, marks, stack, cycles, finished, seen, id);
      marks := marks[id := Open];
      stack := stack + [id];
      seen := seen[id := 0];
    }

    method Leave(id: string)
      requires Valid() && stack != [] && stack[|stack| - 1] == id
      requires id in seen && seen[id] == |catalog.Prerequisites(id)|
      modifies this`marks, this`stack, this`finished
      ensures Valid() && marks == old(marks)[id := Done] && stack == old(stack)[..|old(stack)| - 1]
      ensures finished == old(finished) + [id]
    {
      hide SearchOk, Closes;
      LeaveKeeps(catalog, marks, stack, cycles, finished, seen, id);
      stack := stack[..|stack| - 1];
      marks := marks[id := Done];
      finished := finished + [id];
    }

    method Visit(id: string)
      requires Valid() && id in catalog.lessons
      requires stack != [] ==> IsNext(catalog, stack, seen, id) && catalog.Edge(stack[|stack| - 1], id)
      modifies this
      ensures Valid() && stack == old(stack) && old(cycles) <= cycles && id in marks
      ensures id in old(stack) ==> marks == old(marks) && seen == Bumped(stack, old(seen))
      ensures id !in old(stack) ==> Advances(old(marks), marks, old(seen), seen) && id in finished
      decreases Left(catalog, marks), 4
    {
      hide SearchOk, Advances, Following, IsNext, Bumped, Left, Catalog.Edge, Catalog.Prerequisites;
      MarksFacts(catalog, marks, stack, cycles, finished, seen, id);
      NoAdvance(marks, seen, id);
      if id in marks {
        if marks[id] == Open {
          ReportBackEdge(id);
        }
        return;
      }
      Explore(id);
    }

    /** A visit to a lesson that has no mark yet. */
    method Explore(id: string)
      requires Valid() && id in catalog.lessons && id !in marks
      requires stack == [] || catalog.Edge(stack[|stack| - 1], id)
      modifies this
      ensures Valid() && stack == old(stack) && old(cycles) <= cycles && id in marks && id in finished
      ensures Advances(old(marks), marks, old(seen), seen)
      decreases Left(catalog, marks), 3
    {
      hide SearchOk, Advances, Following, IsNext, Bumped, Left, Catalog.Edge, Catalog.Prerequisites;
      MarksFacts(catalog, marks, stack, cycles, finished, seen, id);
      FewerLeft(catalog, marks, id);
      Pushed(stack, id);
      Enter(id);
      FollowAll(id);
      ExploreAdvances(old(marks), marks, old(seen), seen, id, |catalog.Prerequisites(id)|);
      Leave(id);
    }

    /** The loop over the prerequisites of the lesson on top of the stack. */
    method FollowAll(id: string)
      requires Valid() && stack != [] && stack[|stack| - 1] == id && id in catalog.lessons
      requires id in seen && seen[id] == 0
      modifies this
      ensures Valid() && stack == old(stack) && old(cycles) <= cycles
      ensures Following(id, |catalog.Prerequisites(id)|, old(marks), marks, old(seen), seen)
      decreases Left(catalog, marks), 6
    {
      hide SearchOk, Advances, Following, IsNext, Bumped, Left, Closes, Catalog.Edge, Catalog.Prerequisites;
      var prerequisites := catalog.lessons[id].prerequisites;
      PrerequisitesOf(catalog, id);
      ghost var before, marksBefore, seenBefore, reported := stack, marks, seen, cycles;
      NoAdvance(marks, seen, id);
      for n := 0 to |prerequisites|
        invariant Valid() && stack == before && reported <= cycles
        invariant Following(id, n, marksBefore, marks, seenBefore, seen)
      {
        ghost var marksNow, seenNow := marks, seen;
        NextListed(catalog, stack, marksBefore, marks, seenBefore, seen, id, n);
        Follow(id, prerequisites[n]);
        AdvancesFurther(marksBefore, marksNow, marks, seenBefore, seenNow, seen, id, n);
      }
    }

    /** The body of the loop over prerequisites: those that do not exist are passed over. */
    method Follow(id: string, prerequisite: string)
      requires Valid() && stack != [] && stack[|stack| - 1] == id && id in catalog.lessons
      requires IsNext(catalog, stack, seen, prerequisite)
      modifies this
      ensures Valid() && stack == old(stack) && old(cycles) <= cycles
      ensures id in old(seen) && Following(id, old(seen)[id] + 1, old(marks), marks, old(seen), seen)
      decreases Left(catalog, marks), 5
    {
      hide SearchOk, Advances, Following, IsNext, Bumped, Left, Catalog.Edge, Catalog.Prerequisites;
      MarksFacts(catalog, marks, stack, cycles, finished, seen, prerequisite);
      CountAdvances(catalog, marks, marks, seen, seen, stack, prerequisite);
      if prerequisite in catalog.lessons {
        NextIsEdge(catalog, stack, seen, prerequisite);
        Visit(prerequisite);
      }
      if prerequisite !in stack {
        CountAdvances(catalog, old(marks), marks, old(seen), seen, stack, prerequisite);
        PassOver(prerequisite);
      }
    }

    /** Nothing was reported for this prerequisite, and it is counted as followed. */
    ghost method PassOver(prerequisite: string)
      requires Valid() && IsNext(catalog, stack, seen, prerequisite)
      requires prerequisite !in catalog.lessons || prerequisite in finished
      modifies this`seen
      ensures Valid() && seen == Bumped(stack, old(seen))
    {
      hide SearchOk;
      SkipKeeps(catalog, marks, stack, cycles, finished, seen, prerequisite);
      seen := Bumped(stack, seen);
    }
  }

  /** No mark is changed and new ones are done. */
  ghost predicate MoreDone(marks: map<string, Mark>, marks': map<string, Mark>) {
    && (forall x :: x in marks ==> x in marks' && marks'[x] == marks[x])
    && forall x :: x in marks' && x !in marks ==> marks'[x] == Done
  }

  /** What was counted also stays counted. */
  ghost predicate Advances(marks: map<string, Mark>, marks': map<string, Mark>,
                           seen: map<string, nat>, seen': map<string, nat>) {
    MoreDone(marks, marks') && forall x :: x in seen ==> x in seen' && seen'[x] == seen[x]
  }

  ghost predicate AdvancesBut(id: string, marks: map<string, Mark>, marks': map<string, Mark>,
                              seen: map<string, nat>, seen': map<string, nat>) {
    MoreDone(marks, marks') && forall x :: x in seen && x != id ==> x in seen' && seen'[x] == seen[x]
  }

  lemma MarksFacts(c: Catalog, marks: map<string, Mark>, stack: seq<string>, cycles: seq<seq<string>>,
                   finished: seq<string>, seen: map<string, nat>, id: string)
    requires SearchOk(c, marks, stack, cycles, finished, seen)
    ensures seen.Keys == marks.Keys && marks.Keys <= c.lessons.Keys
    ensures id in stack <==> id in marks && marks[id] == Open
    ensures id in finished <==> id in marks && marks[id] == Done
    ensures id in stack ==> id in c.lessons
  {
  }

  lemma NoAdvance(marks: map<string, Mark>, seen: map<string, nat>, id: string)
    ensures Advances(marks, marks, seen, seen)
    ensures id in seen ==> Following(id, seen[id], marks, marks, seen, seen)
  {
  }

  /** Counting one more prerequisite of the top of the stack. */
  lemma CountAdvances(c: Catalog, m: map<string, Mark>, m': map<string, Mark>, s: map<string, nat>,
                      s': map<string, nat>, stack: seq<string>, prerequisite: string)
    requires IsNext(c, stack, s, prerequisite) && ((m == m' && s == s') || Advances(m, m', s, s'))
    ensures IsNext(c, stack, s', prerequisite)
    ensures var id := stack[|stack| - 1];
      id in s && Following(id, s[id] + 1, m, m', s, Bumped(stack, s'))
  {
  }

  lemma Pushed(stack: seq<string>, id: string)
    ensures (stack + [id])[..|stack + [id]| - 1] == stack
  {
  }

  /** `n` prerequisites of the top of the stack were followed. */
  ghost predicate Following(id: string, n: nat, m: map<string, Mark>, m': map<string, Mark>, s: map<string, nat>,
                            s': map<string, nat>) {
    id in s' && s'[id] == n && AdvancesBut(id, m, m', s, s')
  }

  lemma AdvancesFurther(m0: map<string, Mark>, m1: map<string, Mark>, m2: map<string, Mark>, s0: map<string, nat>,
                        s1: map<string, nat>, s2: map<string, nat>, id: string, n: nat)
    requires Following(id, n, m0, m1, s0, s1) && Following(id, n + 1, m1, m2, s1, s2)
    ensures Following(id, n + 1, m0, m2, s0, s2)
  {
  }

  lemma ExploreAdvances(m: map<string, Mark>, m': map<string, Mark>, s: map<string, nat>, s': map<string, nat>,
                        id: string, n: nat)
    requires id !in m && id !in s && Following(id, n, m[id := Open], m', s[id := 0], s')
    ensures id in s' && s'[id] == n && Advances(m, m'[id := Done], s, s') && id in m'
  {
  }

  /** How many lessons have no mark yet. */
  ghost function Left(c: Catalog, marks: map<string, Mark>): nat {
    |c.lessons.Keys - marks.Keys|
  }

  lemma FewerLeft(c: Catalog, marks: map<string, Mark>, id: string)
    requires id in c.lessons && id !in marks
    ensures Left(c, marks[id := Open]) < Left(c, marks)
  {
    assert c.lessons.Keys - marks.Keys == (c.lessons.Keys - marks[id := Open].Keys) + {id};
  }

  lemma NotMoreLeft(c: Catalog, m: map<string, Mark>, m': map<string, Mark>, s: map<string, nat>, s': map<string, nat>,
                    id: string)
    requires AdvancesBut(id, m, m', s, s')
    ensures Left(c, m') <= Left(c, m)
  {
    NotMore(c.lessons.Keys - m'.Keys, c.lessons.Keys - m.Keys);
  }

  lemma {:induction false} NotMore(a: set<string>, b: set<string>)
    requires a <= b
    ensures |a| <= |b|
  {
    if x :| x in a {
      NotMore(a - {x}, b - {x});
    }
  }

  lemma NextListed(c: Catalog, stack: seq<string>, m: map<string, Mark>, m': map<string, Mark>, s: map<string, nat>,
                   s': map<string, nat>, id: string, n: nat)
    requires stack != [] && stack[|stack| - 1] == id && n < |c.Prerequisites(id)| && Following(id, n, m, m', s, s')
    ensures IsNext(c, stack, s', c.Prerequisites(id)[n]) && id in s' && s'[id] == n && Left(c, m') <= Left(c, m)
  {
    NotMoreLeft(c, m, m', s, s', id);
  }

  lemma PrerequisitesOf(c: Catalog, id: string)
    requires id in c.lessons
    ensures c.Prerequisites(id) == c.lessons[id].prerequisites
  {
  }

  lemma NextIsEdge(c: Catalog, stack: seq<string>, seen: map<string, nat>, id: string)
    requires IsNext(c, stack, seen, id) && id in c.lessons && stack[|stack| - 1] in c.lessons
    ensures c.Edge(stack[|stack| - 1], id)
  {
  }

  lemma LoopCloses(cycles: seq<seq<string>>, stack: seq<string>, start: nat, id: string)
    requires start < |stack|
    ensures Closes(cycles + [Loop(stack, start, id)], stack[|stack| - 1], id)
  {
    assert Loop(stack, start, id) in cycles + [Loop(stack, start, id)];
  }

  /** Every prerequisite of a finished lesson was finished before it, unless the edge to it
      closes a reported cycle. */
  ghost predicate Settled(c: Catalog, cycles: seq<seq<string>>, finished: seq<string>) {
    forall i, v :: 0 <= i < |finished| && c.Edge(finished[i], v) ==>
      v in finished[..i] || Closes(cycles, finished[i], v)
  }

  lemma ClosesGrows(a: seq<seq<string>>, b: seq<seq<string>>)
    requires a <= b
    ensures forall u, v :: Closes(a, u, v) ==> Closes(b, u, v)
  {
    assert forall p :: p in a ==> p in b;
  }

  lemma SettledGrows(c: Catalog, a: seq<seq<string>>, b: seq<seq<string>>, finished: seq<string>)
    requires a <= b && Settled(c, a, finished)
    ensures Settled(c, b, finished)
  {
    ClosesGrows(a, b);
  }

  lemma SettledExtends(c: Catalog, cycles: seq<seq<string>>, finished: seq<string>, id: string)
    requires Settled(c, cycles, finished)
    requires forall v :: c.Edge(id, v) ==> v in finished || Closes(cycles, id, v)
    ensures Settled(c, cycles, finished + [id])
  {
    var more := finished + [id];
    forall i, v | 0 <= i < |more| && c.Edge(more[i], v)
      ensures v in more[..i] || Closes(cycles, more[i], v)
    {
      assert more[..i] == finished[..i];
      assert finished[..|finished|] == finished;
    }
  }

  lemma Extend(c: Catalog, stack: seq<string>, id: string)
    requires Distinct(stack) && Walk(c, stack) && id !in stack
    requires stack == [] || c.Edge(stack[|stack| - 1], id)
    ensures Distinct(stack + [id]) && Walk(c, stack + [id])
  {
  }

  lemma ReportedIsSimple(c: Catalog, stack: seq<string>, start: nat, id: string)
    requires Distinct(stack) && Walk(c, stack) && start < |stack| && stack[start] == id
    requires c.Edge(stack[|stack| - 1], id)
    ensures SimpleCycle(c, stack[start..] + [id])
    ensures var p := stack[start..] + [id]; |p| >= 2 && p[|p| - 2] == stack[|stack| - 1] && p[|p| - 1] == id
  {
    var p := stack[start..] + [id];
    assert p[..|p| - 1] == stack[start..];
    forall i | 0 <= i < |p| - 1 ensures c.Edge(p[i], p[i + 1]) {
      assert p[i] == stack[start + i];
      assert i < |p| - 2 ==> p[i + 1] == stack[start + i + 1];
    }
  }

  /** The first position of `x`. */
  ghost function Rank(s: seq<string>, x: string): (n: nat)
    requires x in s
    ensures n < |s| && s[n] == x && x !in s[..n]
  {
    if s[0] == x then 0 else 1 + Rank(s[1..], x)
  }

  lemma {:induction false} RankInPrefix(s: seq<string>, x: string, i: nat)
    requires i <= |s| && x in s[..i]
    ensures x in s && Rank(s, x) < i
  {
    var k :| 0 <= k < i && s[k] == x;
    var n := Rank(s, x);
    assert forall j :: 0 <= j < n ==> s[j] == s[..n][j] != x;
  }

  /** Along a walk none of whose edges closes a reported cycle, lessons finish ever earlier. */
  lemma {:induction false} WalkDescends(c: Catalog, cycles: seq<seq<string>>, finished: seq<string>, p: seq<string>)
    requires Settled(c, cycles, finished) && (forall id :: id in c.lessons ==> id in finished)
    requires |p| >= 2 && Walk(c, p) && forall i :: 0 <= i < |p| - 1 ==> !Closes(cycles, p[i], p[i + 1])
    ensures p[0] in finished && p[|p| - 1] in finished && Rank(finished, p[|p| - 1]) < Rank(finished, p[0])
    decreases |p|
  {
    assert c.Edge(p[0], p[1]) && !Closes(cycles, p[0], p[1]);
    var i := Rank(finished, p[0]);
    assert p[1] in finished[..i];
    RankInPrefix(finished, p[1], i);
    if |p| > 2 {
      var q := p[1..];
      forall k | 0 <= k < |q| - 1
        ensures c.Edge(q[k], q[k + 1]) && !Closes(cycles, q[k], q[k + 1])
      {
        assert q[k] == p[k + 1] && q[k + 1] == p[(k + 1) + 1];
        assert c.Edge(p[k + 1], p[(k + 1) + 1]);
      }
      WalkDescends(c, cycles, finished, q);
    }
  }

  /** What a search that has marked every lesson leaves behind. */
  lemma SearchIsComplete(c: Catalog, marks: map<string, Mark>, cycles: seq<seq<string>>, finished: seq<string>,
                         seen: map<string, nat>)
    requires SearchOk(c, marks, [], cycles, finished, seen) && forall id :: id in c.lessons ==> id in marks
    ensures Settled(c, cycles, finished) && (forall id :: id in c.lessons ==> id in finished)
    ensures AllSimple(c, cycles) && ReportedAsListed(c, cycles)
  {
    hide Settled, AllSimple, OneEach, Times;
    forall id | id in c.lessons ensures id in finished {
      assert id !in [];
    }
    forall p | p in cycles ensures |p| >= 2 && Times(cycles, p) == Listings(c, p) {
      var id := p[|p| - 2];
      assert id in seen && id in finished;
      assert c.Prerequisites(id)[..seen[id]] == c.Prerequisites(id);
    }
  }

  /** No list is reported twice. */
  ghost predicate NoneTwice(cycles: seq<seq<string>>) {
    forall i, j :: 0 <= i < j < |cycles| ==> cycles[i] != cycles[j]
  }

  lemma {:induction false} NoneTwiceIsTimes(cycles: seq<seq<string>>)
    ensures NoneTwice(cycles) <==> forall p :: p in cycles ==> Times(cycles, p) == 1
  {
    if cycles != [] {
      var front, last := cycles[..|cycles| - 1], cycles[|cycles| - 1];
      assert cycles == front + [last];
      NoneTwiceIsTimes(front);
      hide Times;
      forall p ensures Times(cycles, p) == Times(front, p) + (if p == last then 1 else 0)
                       && (p in front <==> Times(front, p) > 0) {
        TimesMore(front, last, p);
        TimesIn(front, p);
      }
      assert NoneTwice(cycles) <==> NoneTwice(front) && last !in front;
    }
  }

  /** Each cycle is reported once, as the search promises, exactly if the prerequisite that closes it
      is listed once. */
  lemma ReportedOnceExactly(c: Catalog, cycles: seq<seq<string>>)
    requires ReportedAsListed(c, cycles)
    ensures NoneTwice(cycles) <==> forall p :: p in cycles ==> |p| >= 2 && Listings(c, p) == 1
  {
    hide Listings, Times;
    NoneTwiceIsTimes(cycles);
  }

  lemma {:induction false} DistinctTimes(s: seq<string>, x: string)
    requires Distinct(s)
    ensures Times(s, x) <= 1
  {
    hide Times;
    TimesIn(s, x);
    if s != [] {
      var front, last := s[..|s| - 1], s[|s| - 1];
      assert s == front + [last];
      TopIsFresh(s, front, last);
      DistinctTimes(front, x);
      TimesIn(front, x);
      TimesMore(front, last, x);
    }
  }

  /** Where no lesson lists a prerequisite twice nothing is reported twice. */
  lemma NothingRepeatsReport(c: Catalog, cycles: seq<seq<string>>)
    requires ReportedAsListed(c, cycles) && forall id :: id in c.lessons ==> Distinct(c.lessons[id].prerequisites)
    ensures NoneTwice(cycles)
  {
    hide Times, Distinct, OneEach;
    forall p | p in cycles ensures |p| >= 2 && Listings(c, p) == 1 {
      var id, v := p[|p| - 2], p[|p| - 1];
      TimesIn(cycles, p);
      TimesIn(c.Prerequisites(id), v);
      DistinctTimes(c.Prerequisites(id), v);
    }
    ReportedOnceExactly(c, cycles);
  }

  /** `prerequisite_cycles`.  Every list it returns is a real cycle that visits no lesson twice;
      and every cycle there is passes through the closing edge of a returned one, so that none
      would be left if those edges were removed.  In particular it returns nothing exactly when
      there is no cycle, self-loops included.  Each list is returned as often as its closing
      prerequisite is listed. */
  method PrerequisiteCycles(c: Catalog) returns (cycles: seq<seq<string>>)
    requires c.Listed()
    ensures forall p :: p in cycles ==> SimpleCycle(c, p)
    ensures forall p :: ClosedWalk(c, p) ==> exists i :: 0 <= i < |p| - 1 && Closes(cycles, p[i], p[i + 1])
    ensures cycles == [] <==> Acyclic(c)
    ensures ReportedAsListed(c, cycles)
    ensures NoneTwice(cycles) <==> forall p :: p in cycles ==> |p| >= 2 && Listings(c, p) == 1
    ensures (forall id :: id in c.lessons ==> Distinct(c.lessons[id].prerequisites)) ==> NoneTwice(cycles)
  {
    hide SearchOk, SimpleCycle, ClosedWalk, Closes, Acyclic, Listings, NoneTwice, ReportedAsListed, Settled;
    var search := new CycleSearch(c);
    for n := 0 to |c.lessonIds|
      invariant search.Valid() && search.catalog == c && search.stack == []
      invariant forall j :: 0 <= j < n ==> c.lessonIds[j] in search.marks
    {
      search.Visit(c.lessonIds[n]);
    }
    cycles := search.cycles;
    SearchIsComplete(c, search.marks, cycles, search.finished, search.seen);
    CyclesAreCovered(c, cycles, search.finished);
    ReportedOnceExactly(c, cycles);
    if forall id :: id in c.lessons ==> Distinct(c.lessons[id].prerequisites) {
      NothingRepeatsReport(c, cycles);
    }
  }

  /** A lesson that lists itself twice. */
  function SelfTwice(): Catalog {
    Catalog(map["a" := Lesson("a", "m", ["a", "a"], [])], ["a"], map[], [], ["a"])
  }

  /** There the one cycle is reported twice. */
  method ARepeatedPrerequisiteRepeatsTheReport() returns (cycles: seq<seq<string>>)
    ensures cycles == [["a", "a"], ["a", "a"]]
  {
    hide AllSimple, ReportedAsListed, SelfTwice, ClosedWalk, SimpleCycle, Closes, Times, Listings, NoneTwice, Acyclic;
    SelfTwiceIsListed();
    cycles := PrerequisiteCycles(SelfTwice());
    var loop := ["a", "a"];
    LoopIsReported(cycles, loop);
    OnlyLoops(cycles, loop);
    ListedTwice(cycles, loop);
    AllAlike(cycles, loop);
    assert cycles[0] in cycles;
    assert |cycles| == 2;
    assert cycles == [cycles[0], cycles[1]];
  }

  lemma SelfTwiceIsListed()
    ensures SelfTwice().Listed()
  {
  }

  lemma OnlyLoops(cycles: seq<seq<string>>, loop: seq<string>)
    requires loop == ["a", "a"] && forall p :: p in cycles ==> SimpleCycle(SelfTwice(), p)
    ensures forall k :: 0 <= k < |cycles| ==> cycles[k] == loop
  {
    hide SimpleCycle, SelfTwice;
    forall k | 0 <= k < |cycles| ensures cycles[k] == loop {
      assert cycles[k] in cycles;
      OnlyLoop(cycles[k]);
    }
  }

  lemma SelfLoop(loop: seq<string>)
    requires loop == ["a", "a"]
    ensures ClosedWalk(SelfTwice(), loop)
  {
    var c := SelfTwice();
    assert c.lessons["a"].prerequisites == loop && loop[0] in loop;
    assert c.Edge("a", "a");
  }

  lemma LoopIsReported(cycles: seq<seq<string>>, loop: seq<string>)
    requires forall p :: ClosedWalk(SelfTwice(), p) ==>
               exists i :: 0 <= i < |p| - 1 && Closes(cycles, p[i], p[i + 1])
    requires loop == ["a", "a"]
    ensures cycles != []
  {
    hide ClosedWalk, SelfTwice, Closes;
    SelfLoop(loop);
    var i :| 0 <= i < |loop| - 1 && Closes(cycles, loop[i], loop[i + 1]);
    NothingCloses(cycles, loop[i], loop[i + 1]);
  }

  lemma NothingCloses(cycles: seq<seq<string>>, u: string, v: string)
    ensures cycles == [] ==> !Closes(cycles, u, v)
  {
  }

  lemma OnlyLoop(p: seq<string>)
    requires SimpleCycle(SelfTwice(), p)
    ensures p == ["a", "a"]
  {
    var front := p[..|p| - 1];
    forall k | 0 <= k < |front| ensures front[k] == "a" && p[k + 1] == "a" {
      assert SelfTwice().Edge(p[k], p[k + 1]);
    }
    FirstTwoDiffer(front);
  }

  lemma FirstTwoDiffer(s: seq<string>)
    requires Distinct(s)
    ensures |s| >= 2 ==> s[0] != s[1]
  {
  }

  lemma ListedTwice(cycles: seq<seq<string>>, loop: seq<string>)
    requires ReportedAsListed(SelfTwice(), cycles) && loop == ["a", "a"]
    ensures loop in cycles ==> Times(cycles, loop) == 2
  {
    hide OneEach;
    assert SelfTwice().Prerequisites("a") == loop;
    assert multiset(loop)["a"] == 2;
  }

  lemma {:induction false} AllAlike<T>(s: seq<T>, x: T)
    requires forall k :: 0 <= k < |s| ==> s[k] == x
    ensures Times(s, x) == |s|
  {
    hide Times;
    if s == [] {
      TimesIn(s, x);
    } else {
      AllAlike(s[..|s| - 1], x);
      TimesMore(s[..|s| - 1], x, x);
      assert s == s[..|s| - 1] + [x];
    }
  }

  lemma CyclesAreCovered(c: Catalog, cycles: seq<seq<string>>, finished: seq<string>)
    requires Settled(c, cycles, finished) && forall id :: id in c.lessons ==> id in finished
    requires forall p :: p in cycles ==> SimpleCycle(c, p)
    ensures forall p :: ClosedWalk(c, p) ==> exists i :: 0 <= i < |p| - 1 && Closes(cycles, p[i], p[i + 1])
    ensures cycles == [] <==> Acyclic(c)
  {
    hide Settled;
    forall p | ClosedWalk(c, p) ensures exists i :: 0 <= i < |p| - 1 && Closes(cycles, p[i], p[i + 1]) {
      if forall i :: 0 <= i < |p| - 1 ==> !Closes(cycles, p[i], p[i + 1]) {
        WalkDescends(c, cycles, finished, p);
      }
    }
    if cycles == [] {
      assert forall u, v :: !Closes(cycles, u, v);
    } else {
      assert SimpleCycle(c, cycles[0]);
    }
  }

  // ---------------------------------------------------------------- referential integrity

  datatype Issue =
    | Dangling(id: string, prerequisite: string)
    | OwnPrerequisite(id: string)
    | BadValidator(id: string, task: string, error: RegistryError)
    | DuplicateTask(id: string, task: string)
    | Cycle(path: seq<string>)
    | EmptyModule(moduleId: string)

  /** What each kind of issue claims about the catalogue. */
  ghost predicate Defect(reg: Registry, c: Catalog, x: Issue) {
    match x
    case Dangling(id, p) => id in c.lessons && p in c.lessons[id].prerequisites && p !in c.lessons
    case OwnPrerequisite(id) => id in c.lessons && id in c.lessons[id].prerequisites
    case BadValidator(id, task, error) =>
      id in c.lessons && BadTask(reg, c.lessons[id].tasks, task, error)
    case DuplicateTask(id, task) => id in c.lessons && Repeated(c.lessons[id].tasks, task)
    case Cycle(path) => SimpleCycle(c, path)
    case EmptyModule(m) => m in c.modules && c.modules[m].lessons == []
  }

  ghost predicate Refused(reg: Registry, validators: seq<Validator>, error: RegistryError) {
    exists v :: v in validators && Check(reg, v) == Err(error)
  }

  ghost predicate BadTask(reg: Registry, tasks: seq<Task>, id: string, error: RegistryError) {
    exists t :: t in tasks && t.id == id && Refused(reg, t.validators, error)
  }

  ghost predicate Repeated(tasks: seq<Task>, id: string) {
    exists i, j :: 0 <= i < j < |tasks| && tasks[i].id == id && tasks[j].id == id
  }

  /** The issues that concern one lesson. */
  predicate About(x: Issue, id: string) {
    (x.Dangling? || x.OwnPrerequisite? || x.BadValidator? || x.DuplicateTask?) && x.id == id
  }

  method PrerequisiteIssues(c: Catalog, id: string) returns (issues: seq<Issue>)
    requires id in c.lessons
    ensures forall x :: x in issues <==>
              (x.Dangling? || x.OwnPrerequisite?) && About(x, id)
              && (if x.Dangling? then x.prerequisite in c.lessons[id].prerequisites && x.prerequisite !in c.lessons
                  else id in c.lessons[id].prerequisites)
  {
    issues := [];
    var prerequisites := c.lessons[id].prerequisites;
    for n := 0 to |prerequisites|
      invariant forall x :: x in issues <==>
                  (x.Dangling? || x.OwnPrerequisite?) && About(x, id)
                  && (if x.Dangling? then x.prerequisite in prerequisites[..n] && x.prerequisite !in c.lessons
                      else id in prerequisites[..n])
    {
      var prerequisite := prerequisites[n];
      assert prerequisites[..n + 1] == prerequisites[..n] + [prerequisite];
      if prerequisite !in c.lessons {
        issues := issues + [Dangling(id, prerequisite)];
      }
      if prerequisite == id {
        issues := issues + [OwnPrerequisite(id)];
      }
    }
    assert prerequisites[..|prerequisites|] == prerequisites;
  }

  lemma RefusedNext(reg: Registry, validators: seq<Validator>, n: nat, error: RegistryError)
    requires n < |validators|
    ensures Refused(reg, validators[..n + 1], error)
       <==> Refused(reg, validators[..n], error) || Check(reg, validators[n]) == Err(error)
  {
    hide Check;
    assert validators[..n + 1] == validators[..n] + [validators[n]];
  }

  method TaskIssues(reg: Registry, id: string, task: Task) returns (issues: seq<Issue>)
    ensures forall x :: x in issues <==>
              x.BadValidator? && x.id == id && x.task == task.id && Refused(reg, task.validators, x.error)
  {
    hide Check;
    issues := [];
    assert forall e :: !Refused(reg, task.validators[..0], e);
    for n := 0 to |task.validators|
      invariant forall x :: x in issues <==>
                  x.BadValidator? && x.id == id && x.task == task.id && Refused(reg, task.validators[..n], x.error)
    {
      forall e ensures Refused(reg, task.validators[..n + 1], e)
                  <==> Refused(reg, task.validators[..n], e) || Check(reg, task.validators[n]) == Err(e) {
        RefusedNext(reg, task.validators, n, e);
      }
      hide Refused;
      var result := Check(reg, task.validators[n]);
      if result.Err? {
        issues := issues + [BadValidator(id, task.id, result.error)];
      }
    }
    assert task.validators[..|task.validators|] == task.validators;
  }

  lemma BadTaskNext(reg: Registry, tasks: seq<Task>, n: nat, id: string, error: RegistryError)
    requires n < |tasks|
    ensures BadTask(reg, tasks[..n + 1], id, error)
       <==> BadTask(reg, tasks[..n], id, error) || (tasks[n].id == id && Refused(reg, tasks[n].validators, error))
  {
    hide Refused;
    assert tasks[..n + 1] == tasks[..n] + [tasks[n]];
  }

  method ValidatorIssues(reg: Registry, id: string, tasks: seq<Task>) returns (issues: seq<Issue>)
    ensures forall x :: x in issues <==> x.BadValidator? && x.id == id && BadTask(reg, tasks, x.task, x.error)
  {
    hide Refused;
    issues := [];
    assert forall t, e :: !BadTask(reg, tasks[..0], t, e);
    for n := 0 to |tasks|
      invariant forall x :: x in issues <==> x.BadValidator? && x.id == id && BadTask(reg, tasks[..n], x.task, x.error)
    {
      forall t, e ensures BadTask(reg, tasks[..n + 1], t, e)
                     <==> BadTask(reg, tasks[..n], t, e) || (tasks[n].id == t && Refused(reg, tasks[n].validators, e)) {
        BadTaskNext(reg, tasks, n, t, e);
      }
      hide BadTask;
      var more := TaskIssues(reg, id, tasks[n]);
      issues := issues + more;
    }
    assert tasks[..|tasks|] == tasks;
  }

  method DuplicateIssues(id: string, tasks: seq<Task>) returns (issues: seq<Issue>)
    ensures forall x :: x in issues <==> x.DuplicateTask? && x.id == id && Repeated(tasks, x.task)
  {
    issues := [];
    var seen := {};
    for n := 0 to |tasks|
      invariant forall t :: t in seen <==> exists i :: 0 <= i < n && tasks[i].id == t
      invariant forall x :: x in issues <==> x.DuplicateTask? && x.id == id && Repeated(tasks[..n], x.task)
    {
      forall t ensures Repeated(tasks[..n + 1], t) <==> Repeated(tasks[..n], t) || (t == tasks[n].id && t in seen) {
        RepeatedNext(tasks, n, t);
      }
      if tasks[n].id in seen {
        issues := issues + [DuplicateTask(id, tasks[n].id)];
      }
      seen := seen + {tasks[n].id};
    }
    assert tasks[..|tasks|] == tasks;
  }

  lemma RepeatedNext(tasks: seq<Task>, n: nat, id: string)
    requires n < |tasks|
    ensures Repeated(tasks[..n + 1], id)
       <==> Repeated(tasks[..n], id) || (id == tasks[n].id && exists i :: 0 <= i < n && tasks[i].id == id)
  {
    var a, b := tasks[..n], tasks[..n + 1];
    if Repeated(b, id) {
      var i, j :| 0 <= i < j < |b| && b[i].id == id && b[j].id == id;
      assert tasks[i].id == id;
      assert j < n ==> a[i].id == id && a[j].id == id;
    }
    if Repeated(a, id) {
      var i, j :| 0 <= i < j < |a| && a[i].id == id && a[j].id == id;
      assert b[i].id == id && b[j].id == id;
    }
    if id == tasks[n].id && exists i :: 0 <= i < n && tasks[i].id == id {
      var i :| 0 <= i < n && tasks[i].id == id;
      assert b[i].id == id && b[n].id == id;
    }
  }

  method LessonIssues(reg: Registry, c: Catalog, id: string) returns (issues: seq<Issue>)
    requires id in c.lessons
    ensures forall x :: x in issues <==> About(x, id) && Defect(reg, c, x)
  {
    hide BadTask, Repeated;
    var lesson := c.lessons[id];
    var ofPrerequisites := PrerequisiteIssues(c, id);
    var ofValidators := ValidatorIssues(reg, id, lesson.tasks);
    var ofTaskIds := DuplicateIssues(id, lesson.tasks);
    issues := ofPrerequisites + ofValidators + ofTaskIds;
  }

  method ModuleIssues(c: Catalog) returns (issues: seq<Issue>)
    requires c.Listed()
    ensures forall x :: x in issues <==>
              x.EmptyModule? && x.moduleId in c.modules && c.modules[x.moduleId].lessons == []
  {
    issues := [];
    for n := 0 to |c.moduleIds|
      invariant forall x :: x in issues <==>
                  x.EmptyModule? && x.moduleId in c.moduleIds[..n] && x.moduleId in c.modules
                      && c.modules[x.moduleId].lessons == []
    {
      var m := c.moduleIds[n];
      assert c.moduleIds[..n + 1] == c.moduleIds[..n] + [m];
      if c.modules[m].lessons == [] {
        issues := issues + [EmptyModule(m)];
      }
    }
    assert c.moduleIds[..|c.moduleIds|] == c.moduleIds;
  }

  /** Nothing dangles, nothing is repeated or malformed, and there is no prerequisite cycle. */
  ghost predicate Consistent(reg: Registry, c: Catalog) {
    Acyclic(c) && forall x: Issue :: !x.Cycle? ==> !Defect(reg, c, x)
  }

  /** `integrity_issues`: every issue is real, every defect other than a cycle is reported, and
      nothing is reported exactly when the catalogue is consistent. */
  method IntegrityIssues(reg: Registry, c: Catalog) returns (issues: seq<Issue>)
    requires c.Listed()
    ensures forall x :: x in issues ==> Defect(reg, c, x)
    ensures forall x: Issue :: !x.Cycle? && Defect(reg, c, x) ==> x in issues
    ensures issues == [] <==> Consistent(reg, c)
  {
    hide Defect, SimpleCycle, ClosedWalk, Acyclic, ReportedAsListed, NoneTwice, Listings, Closes;
    var ofLessons: seq<Issue> := [];
    for n := 0 to |c.lessonIds|
      invariant forall x :: x in ofLessons <==>
                  exists j :: 0 <= j < n && About(x, c.lessonIds[j]) && Defect(reg, c, x)
    {
      var more := LessonIssues(reg, c, c.lessonIds[n]);
      ofLessons := ofLessons + more;
    }
    var cycles := PrerequisiteCycles(c);
    var ofCycles: seq<Issue> := [];
    for n := 0 to |cycles|
      invariant |ofCycles| == n && forall x :: x in ofCycles <==> x.Cycle? && x.path in cycles[..n]
    {
      assert cycles[..n + 1] == cycles[..n] + [cycles[n]];
      ofCycles := ofCycles + [Cycle(cycles[n])];
    }
    assert cycles[..|cycles|] == cycles;
    var ofModules := ModuleIssues(c);
    issues := ofLessons + ofCycles + ofModules;
    DefectsArePlaced(reg, c, ofLessons, cycles);
    assert issues != [] ==> issues[0] in issues;
    assert cycles != [] ==> ofCycles != [];
  }

  /** Every defect belongs to a listed lesson, to a cycle or to a module. */
  lemma DefectsArePlaced(reg: Registry, c: Catalog, ofLessons: seq<Issue>, cycles: seq<seq<string>>)
    requires c.Listed() && forall p :: p in cycles ==> SimpleCycle(c, p)
    requires forall x :: x in ofLessons <==>
               exists j :: 0 <= j < |c.lessonIds| && About(x, c.lessonIds[j]) && Defect(reg, c, x)
    ensures forall x: Issue :: Defect(reg, c, x) && !x.Cycle? ==>
              x in ofLessons || (x.EmptyModule? && x.moduleId in c.modules && c.modules[x.moduleId].lessons == [])
    ensures forall x: Issue :: x.Cycle? && x.path in cycles ==> Defect(reg, c, x)
    ensures forall x: Issue :: x.EmptyModule? && x.moduleId in c.modules && c.modules[x.moduleId].lessons == [] ==>
              Defect(reg, c, x)
  {
    forall x: Issue | Defect(reg, c, x) && !x.Cycle? && !x.EmptyModule? ensures x in ofLessons {
      hide SimpleCycle, BadTask, Repeated;
      assert x.id in c.lessonIds;
      var j :| 0 <= j < |c.lessonIds| && c.lessonIds[j] == x.id;
      assert About(x, c.lessonIds[j]);
    }
  }

  // ---------------------------------------------------------------- loading

  /** A module manifest and the lesson files found beside it. */
  datatype Package = Package(manifest: Module, files: map<string, Lesson>) {
    /** The lessons it lists, as its files have them. */
    function Lessons(): map<string, Lesson> {
      map id | id in manifest.lessons && id in files :: files[id]
    }

    /** What it adds to the teaching order. */
    function Core(): seq<string> {
      if manifest.pack == "core" then manifest.lessons else []
    }
  }

  datatype LoadError =
    | NoModules
    | Unreadable(moduleId: string, lesson: string)
    | WrongId(lesson: string)
    | WrongModule(lesson: string)
    | DuplicateLesson(lesson: string)
    | Inconsistent(issues: seq<Issue>)

  /** The lessons of the core packages, package by package. */
  function CoreLessons(packages: seq<Package>): seq<string> {
    if packages == [] then [] else CoreLessons(packages[..|packages| - 1]) + packages[|packages| - 1].Core()
  }

  function LessonsOf(packages: seq<Package>): map<string, Lesson> {
    if packages == [] then map[] else LessonsOf(packages[..|packages| - 1]) + packages[|packages| - 1].Lessons()
  }

  /** Of several manifests with one id the last counts. */
  function ModulesOf(packages: seq<Package>): map<string, Module> {
    if packages == [] then map[]
    else
      var last := packages[|packages| - 1].manifest;
      ModulesOf(packages[..|packages| - 1])[last.id := last]
  }

  /** The catalogue that some packages make, without the two lists of keys, on which consistency
      does not depend. */
  function Whole(packages: seq<Package>): Catalog {
    Catalog(LessonsOf(packages), [], ModulesOf(packages), [], CoreLessons(packages))
  }

  lemma WholeNext(packages: seq<Package>, p: Package)
    ensures CoreLessons(packages + [p]) == CoreLessons(packages) + p.Core()
    ensures LessonsOf(packages + [p]) == LessonsOf(packages) + p.Lessons()
    ensures ModulesOf(packages + [p]) == ModulesOf(packages)[p.manifest.id := p.manifest]
  {
    assert (packages + [p])[..|packages|] == packages;
  }

  ghost predicate CoreOrder(c: Catalog) {
    Distinct(c.lessonOrder) && forall id :: id in c.lessonOrder ==> id in c.lessons
  }

  lemma DistinctAppend(s: seq<string>, id: string)
    requires Distinct(s) && id !in s
    ensures Distinct(s + [id])
  {
  }

  /** A package whose listed lessons are all there, each under its own id and for this module, and
      none twice. */
  ghost predicate PackageOk(package: Package) {
    Distinct(package.manifest.lessons) && forall id :: id in package.manifest.lessons ==> LessonOk(package, id)
  }

  predicate LessonOk(package: Package, id: string) {
    id in package.files && package.files[id].id == id && package.files[id].moduleId == package.manifest.id
  }

  /** What an error of one package claims. */
  ghost predicate Explains(c: Catalog, package: Package, error: LoadError) {
    var m := package.manifest;
    match error
    case Unreadable(moduleId, id) => moduleId == m.id && id in m.lessons && id !in package.files
    case WrongId(id) => id in m.lessons && id in package.files && package.files[id].id != id
    case WrongModule(id) => id in m.lessons && id in package.files && package.files[id].moduleId != m.id
    case DuplicateLesson(id) => id in m.lessons && (id in c.lessons || !Distinct(m.lessons))
    case _ => false
  }

  lemma RepeatedIsNotDistinct(s: seq<string>, n: nat)
    requires n < |s| && s[n] in s[..n]
    ensures !Distinct(s)
  {
  }

  /** What the loop over a manifest has added to `c` once it has seen `ids`: `d`, whose modules are
      still those of `c`. */
  ghost predicate Added(c: Catalog, package: Package, ids: seq<string>, d: Catalog) {
    && (forall id :: id in d.lessonIds <==> id in d.lessons) && CoreOrder(d) && Distinct(ids)
    && d.lessonOrder == c.lessonOrder + (if package.manifest.pack == "core" then ids else [])
    && d.lessons.Keys == c.lessons.Keys + (set id | id in ids)
    && (forall id :: id in c.lessons ==> d.lessons[id] == c.lessons[id])
    && (forall id :: id in ids ==> id !in c.lessons && LessonOk(package, id) && d.lessons[id] == package.files[id])
    && d.modules == c.modules && d.moduleIds == c.moduleIds
  }

  lemma NothingAdded(c: Catalog, package: Package)
    requires c.Listed() && CoreOrder(c)
    ensures Added(c, package, [], c)
  {
  }

  function WithLesson(c: Catalog, package: Package, id: string): Catalog
    requires id in package.files
  {
    c.(lessons := c.lessons[id := package.files[id]], lessonIds := c.lessonIds + [id],
       lessonOrder := if package.manifest.pack == "core" then c.lessonOrder + [id] else c.lessonOrder)
  }

  lemma AddedOnce(c: Catalog, package: Package, ids: seq<string>, d: Catalog, id: string)
    requires Added(c, package, ids, d) && id !in d.lessons && LessonOk(package, id)
    ensures Added(c, package, ids + [id], WithLesson(d, package, id))
  {
    hide Distinct;
    assert id !in ids;
    DistinctAppend(ids, id);
    DistinctAppend(d.lessonOrder, id);
  }

  lemma AddedTwice(c: Catalog, package: Package, ids: seq<string>, n: nat, d: Catalog)
    requires n < |ids| && Added(c, package, ids[..n], d) && ids[n] in d.lessons
    ensures ids[n] in c.lessons || !Distinct(ids)
  {
    if ids[n] in ids[..n] {
      RepeatedIsNotDistinct(ids, n);
    }
  }

  lemma AddedAll(c: Catalog, package: Package, d: Catalog)
    requires c.Listed() && Added(c, package, package.manifest.lessons, d)
    ensures d.Listed() && CoreOrder(d) && PackageOk(package)
    ensures forall id :: id in package.manifest.lessons ==> id !in c.lessons
    ensures d.lessonOrder == c.lessonOrder + package.Core() && d.lessons == c.lessons + package.Lessons()
    ensures d.modules == c.modules && d.moduleIds == c.moduleIds
  {
    hide Distinct;
  }

  lemma AddModule(c: Catalog, m: Module, moduleIds: seq<string>)
    requires c.Listed() && CoreOrder(c)
    requires moduleIds == if m.id in c.modules then c.moduleIds else c.moduleIds + [m.id]
    ensures c.(modules := c.modules[m.id := m], moduleIds := moduleIds).Listed()
    ensures CoreOrder(c.(modules := c.modules[m.id := m], moduleIds := moduleIds))
  {
    hide Distinct;
  }

  /** One package of `load`: its lessons are checked and added in the order its manifest lists
      them. */
  method AddPackage(c: Catalog, package: Package) returns (r: Result<Catalog, LoadError>)
    requires c.Listed() && CoreOrder(c)
    ensures r.Ok? <==> PackageOk(package) && forall id :: id in package.manifest.lessons ==> id !in c.lessons
    ensures r.Ok? ==> r.value.Listed() && CoreOrder(r.value)
    ensures r.Ok? ==> r.value.lessonOrder == c.lessonOrder + package.Core()
    ensures r.Ok? ==> r.value.lessons == c.lessons + package.Lessons()
    ensures r.Ok? ==> r.value.modules == c.modules[package.manifest.id := package.manifest]
    ensures r.Err? ==> Explains(c, package, r.error)
  {
    hide Distinct, Added, CoreOrder, Catalog.Listed;
    var m := package.manifest;
    var d := c;
    NothingAdded(c, package);
    assert m.lessons[..0] == [];
    for n := 0 to |m.lessons|
      invariant Added(c, package, m.lessons[..n], d)
    {
      var id := m.lessons[n];
      assert m.lessons[..n + 1] == m.lessons[..n] + [id];
      assert id in package.manifest.lessons;
      if id !in package.files {
        assert !LessonOk(package, id);
        return Err(Unreadable(m.id, id));
      }
      var lesson := package.files[id];
      assert LessonOk(package, id) <==> lesson.id == id && lesson.moduleId == m.id;
      if lesson.id != id {
        return Err(WrongId(id));
      }
      if lesson.moduleId != m.id {
        return Err(WrongModule(id));
      }
      if id in d.lessons {
        AddedTwice(c, package, m.lessons, n, d);
        return Err(DuplicateLesson(id));
      }
      AddedOnce(c, package, m.lessons[..n], d, id);
      d := WithLesson(d, package, id);
    }
    assert m.lessons[..|m.lessons|] == m.lessons;
    AddedAll(c, package, d);
    var moduleIds := if m.id in d.modules then d.moduleIds else d.moduleIds + [m.id];
    AddModule(d, m, moduleIds);
    r := Ok(d.(modules := d.modules[m.id := m], moduleIds := moduleIds));
  }

  /** Packages that are fine on their own and list no lesson twice between them. */
  ghost predicate PackagesOk(packages: seq<Package>) {
    && (forall p :: p in packages ==> PackageOk(p))
    && forall i, j, id :: 0 <= i < j < |packages| && id in packages[i].manifest.lessons ==>
        id !in packages[j].manifest.lessons
  }

  /** `c` is the catalogue that the packages make. */
  ghost predicate Assembled(packages: seq<Package>, c: Catalog) {
    c.Listed() && CoreOrder(c) && c.(lessonIds := [], moduleIds := []) == Whole(packages)
  }

  lemma {:induction false} LessonsOfMembers(packages: seq<Package>, id: string)
    ensures id in LessonsOf(packages) <==> exists p :: p in packages && id in p.Lessons()
  {
    if packages != [] {
      var front, last := packages[..|packages| - 1], packages[|packages| - 1];
      assert packages == front + [last];
      LessonsOfMembers(front, id);
    }
  }

  /** The teaching order holds the lessons of the core packages, package by package. */
  lemma {:induction false} CoreLessonsInOrder(packages: seq<Package>, more: seq<Package>)
    ensures CoreLessons(packages + more) == CoreLessons(packages) + CoreLessons(more)
    ensures |more| == 1 ==>
              CoreLessons(more) == if more[0].manifest.pack == "core" then more[0].manifest.lessons else []
    decreases |more|
  {
    hide CoreLessons;
    if more == [] {
      NoCoreLessons();
      assert packages + more == packages;
    } else {
      var front, last := more[..|more| - 1], more[|more| - 1];
      assert more == front + [last] && packages + more == (packages + front) + [last];
      WholeNext(packages + front, last);
      WholeNext(front, last);
      CoreLessonsInOrder(packages, front);
      if front == [] {
        NoCoreLessons();
      }
    }
  }

  lemma NoCoreLessons()
    ensures CoreLessons([]) == []
  {
  }

  /** Of the manifests with one id the last is the module. */
  lemma {:induction false} LastManifestCounts(packages: seq<Package>, n: nat)
    requires n < |packages| && forall j :: n < j < |packages| ==> packages[j].manifest.id != packages[n].manifest.id
    ensures packages[n].manifest.id in ModulesOf(packages)
    ensures ModulesOf(packages)[packages[n].manifest.id] == packages[n].manifest
    decreases |packages|
  {
    if n < |packages| - 1 {
      var front := packages[..|packages| - 1];
      assert forall j :: 0 <= j < |front| ==> front[j] == packages[j];
      LastManifestCounts(front, n);
    }
  }

  ghost predicate ListedBy(packages: seq<Package>, id: string) {
    exists p :: p in packages && id in p.manifest.lessons
  }

  lemma LessonsOfIsListedBy(packages: seq<Package>, id: string)
    requires PackagesOk(packages)
    ensures id in LessonsOf(packages) <==> ListedBy(packages, id)
  {
    LessonsOfMembers(packages, id);
    hide LessonsOf;
    assert forall p :: p in packages ==> PackageOk(p);
  }

  lemma OthersListNone(packages: seq<Package>, n: nat, id: string)
    requires n < |packages| && PackagesOk(packages[..n + 1]) && id in packages[n].manifest.lessons
    ensures !ListedBy(packages[..n], id)
  {
    hide PackageOk;
    var a, b := packages[..n], packages[..n + 1];
    forall q | q in a ensures id !in q.manifest.lessons {
      var i :| 0 <= i < n && a[i] == q;
      assert b[i] == q && b[n] == packages[n];
    }
  }

  lemma OneMorePackage(packages: seq<Package>, n: nat)
    requires n < |packages| && PackagesOk(packages[..n]) && PackageOk(packages[n])
    requires forall id :: id in packages[n].manifest.lessons ==> !ListedBy(packages[..n], id)
    ensures PackagesOk(packages[..n + 1])
  {
    hide PackageOk;
    var a, b, p := packages[..n], packages[..n + 1], packages[n];
    assert b == a + [p];
    forall i, j, id | 0 <= i < j < |b| && id in b[i].manifest.lessons ensures id !in b[j].manifest.lessons {
      assert a[i] in a && a[i] == b[i];
      if j < n {
        assert a[j] == b[j];
      }
    }
  }

  /** What the next package may list is what no earlier one lists. */
  lemma PackagesOkNext(packages: seq<Package>, n: nat)
    requires n < |packages| && PackagesOk(packages[..n])
    ensures PackagesOk(packages[..n + 1])
       <==> PackageOk(packages[n]) && forall id :: id in packages[n].manifest.lessons ==>
           id !in LessonsOf(packages[..n])
  {
    forall id ensures id in LessonsOf(packages[..n]) <==> ListedBy(packages[..n], id) {
      LessonsOfIsListedBy(packages[..n], id);
    }
    if PackagesOk(packages[..n + 1]) {
      assert packages[..n + 1][n] == packages[n];
      assert PackageOk(packages[n]);
      forall id | id in packages[n].manifest.lessons ensures !ListedBy(packages[..n], id) {
        OthersListNone(packages, n, id);
      }
    }
    hide PackageOk, PackagesOk, LessonsOf, ListedBy;
    if PackageOk(packages[n]) && forall id :: id in packages[n].manifest.lessons ==> !ListedBy(packages[..n], id) {
      OneMorePackage(packages, n);
    }
  }

  lemma AssembledNext(packages: seq<Package>, c: Catalog, p: Package, d: Catalog)
    requires Assembled(packages, c) && d.Listed() && CoreOrder(d)
    requires d.lessonOrder == c.lessonOrder + p.Core()
    requires d.lessons == c.lessons + p.Lessons()
    requires d.modules == c.modules[p.manifest.id := p.manifest]
    ensures Assembled(packages + [p], d)
  {
    hide CoreLessons, LessonsOf, ModulesOf, Distinct;
    WholeNext(packages, p);
  }

  lemma PrefixOk(packages: seq<Package>, n: nat)
    requires PackagesOk(packages) && n <= |packages|
    ensures PackagesOk(packages[..n])
  {
    hide PackageOk;
  }

  /** Which lessons and modules there are is all that consistency depends on. */
  lemma ListsDoNotMatter(reg: Registry, c: Catalog, d: Catalog)
    requires c.lessons == d.lessons && c.modules == d.modules
    ensures Consistent(reg, c) <==> Consistent(reg, d)
    ensures forall x :: Defect(reg, c, x) <==> Defect(reg, d, x)
  {
    forall p ensures ClosedWalk(c, p) <==> ClosedWalk(d, p) {
      assert forall u, v :: c.Edge(u, v) <==> d.Edge(u, v);
    }
    hide BadTask, Repeated, ClosedWalk;
    forall x ensures Defect(reg, c, x) <==> Defect(reg, d, x) {
    }
    hide Defect;
  }

  /** `load`, from the packages found on disk, already sorted core first and by number.  It succeeds
      exactly if there are packages, each of them and their combination is in order, and the
      catalogue they make is consistent; and that catalogue is what it returns.  Otherwise it says
      what is wrong. */
  method Load(reg: Registry, packages: seq<Package>) returns (r: Result<Catalog, LoadError>)
    ensures r.Ok? <==> packages != [] && PackagesOk(packages) && Consistent(reg, Whole(packages))
    ensures r.Ok? ==> Assembled(packages, r.value)
    ensures r == Err(NoModules) <==> packages == []
    ensures r.Err? && r.error.Inconsistent? <==>
              packages != [] && PackagesOk(packages) && !Consistent(reg, Whole(packages))
    ensures r.Err? && r.error.Inconsistent? ==>
              && r.error.issues != [] && (forall x :: x in r.error.issues ==> Defect(reg, Whole(packages), x))
              && forall x: Issue :: !x.Cycle? && Defect(reg, Whole(packages), x) ==> x in r.error.issues
  {
    hide Consistent, Defect, PackagesOk, PackageOk, Explains, LessonsOf, ModulesOf, CoreLessons;
    if packages == [] {
      return Err(NoModules);
    }
    var c := Catalog(map[], [], map[], [], []);
    NothingIsAssembled(c);
    assert packages[..0] == [];
    for n := 0 to |packages|
      invariant Assembled(packages[..n], c) && PackagesOk(packages[..n])
    {
      PackagesOkNext(packages, n);
      assert packages[..n + 1] == packages[..n] + [packages[n]];
      var added := AddPackage(c, packages[n]);
      if added.Err? {
        if PackagesOk(packages) {
          PrefixOk(packages, n + 1);
        }
        ErrorOfPackage(c, packages[n], added.error);
        return Err(added.error);
      }
      AssembledNext(packages[..n], c, packages[n], added.value);
      c := added.value;
    }
    assert packages[..|packages|] == packages;
    ListsDoNotMatter(reg, c, Whole(packages));
    var issues := IntegrityIssues(reg, c);
    if issues != [] {
      return Err(Inconsistent(issues));
    }
    r := Ok(c);
  }

  lemma NothingIsAssembled(c: Catalog)
    requires c == Catalog(map[], [], map[], [], [])
    ensures Assembled([], c) && PackagesOk([])
  {
  }

  lemma ErrorOfPackage(c: Catalog, package: Package, error: LoadError)
    requires Explains(c, package, error)
    ensures error != NoModules && !error.Inconsistent?
  {
  }
}
