/** The lesson rows of the progress database (crates/progress-store/src/lib.rs). */
module ProgressStore {
  import opened Prelude
  import opened Mastery
  import LessonCatalog
  import GuidedPath

  // ---------------------------------------------------------------- rows

  datatype Key = Key(profile: int, lesson: string)

  datatype Row = Row(
    status: LessonStatus, attempts: nat, hintsUsed: nat, solutionRevealed: bool,
    mastery: Option<MasteryStatus>, score: nat,
    firstStartedAt: Option<int>, completedAt: Option<int>, lastAttemptAt: Option<int>)

  datatype Event =
    | Start(now: int)
    | Complete(reached: MasteryStatus, hints: nat, revealed: bool, now: int)
    | FailedAttempt(now: int)
    | HintUsed(now: int)

  function StatusOf(best: MasteryStatus): LessonStatus {
    if best.NeedsRevisiting() then LessonStatus.NeedsReview else LessonStatus.Passed
  }

  /** What a statement inserts where there is no row. */
  function Inserted(e: Event): Row {
    match e
    case Start(now) => Row(InProgress, 0, 0, false, None, 0, Some(now), None, Some(now))
    case FailedAttempt(now) => Row(InProgress, 1, 0, false, None, 0, Some(now), None, Some(now))
    case HintUsed(now) => Row(InProgress, 0, 1, false, None, 0, Some(now), None, Some(now))
    case Complete(m, hints, revealed, now) =>
      Row(StatusOf(m), 1, hints, revealed, Some(m), m.Score(), Some(now), Some(now), Some(now))
  }

  /** What its `ON CONFLICT` clause makes of an existing row. */
  function Updated(row: Row, e: Event): Row {
    match e
    case Start(now) =>
      row.(status := if row.status == NotStarted then InProgress else row.status, lastAttemptAt := Some(now))
    case FailedAttempt(now) => row.(attempts := row.attempts + 1, lastAttemptAt := Some(now))
    case HintUsed(now) => row.(hintsUsed := row.hintsUsed + 1, lastAttemptAt := Some(now))
    case Complete(m, hints, revealed, now) =>
      var best := if row.mastery.Some? then Max(row.mastery.value, m) else m;
      row.(status := StatusOf(best), attempts := row.attempts + 1, hintsUsed := row.hintsUsed + hints,
           solutionRevealed := row.solutionRevealed || revealed, mastery := Some(best), score := best.Score(),
           completedAt := if row.completedAt.Some? then row.completedAt else Some(now), lastAttemptAt := Some(now))
  }

  function Upsert(row: Option<Row>, e: Event): Row {
    match row
    case None => Inserted(e)
    case Some(r) => Updated(r, e)
  }

  function Find(rows: map<Key, Row>, key: Key): Option<Row> {
    if key in rows then Some(rows[key]) else None
  }

  function Apply(rows: map<Key, Row>, key: Key, e: Event): map<Key, Row> {
    rows[key := Upsert(Find(rows, key), e)]
  }

  // ---------------------------------------------------------------- the store

  class Store {
    var rows: map<Key, Row>

    constructor ()
      ensures rows == map[]
    {
      rows := map[];
    }

    method StartLesson(profile: int, lesson: string, now: int)
      modifies this
      ensures rows == Apply(old(rows), Key(profile, lesson), Start(now))
    {
      var key := Key(profile, lesson);
      if key in rows {
        var row := rows[key];
        if row.status == NotStarted {
          row := row.(status := InProgress);
        }
        rows := rows[key := row.(lastAttemptAt := Some(now))];
      } else {
        rows := rows[key := Row(InProgress, 0, 0, false, None, 0, Some(now), None, Some(now))];
      }
    }

    /** Mastery only ever improves: the better of the stored and the new one is kept and
        returned. */
    method CompleteLesson(profile: int, lesson: string, mastery: MasteryStatus, hintsUsed: nat,
                          solutionRevealed: bool, now: int)
      returns (best: MasteryStatus)
      modifies this
      ensures rows == Apply(old(rows), Key(profile, lesson), Complete(mastery, hintsUsed, solutionRevealed, now))
      ensures rows[Key(profile, lesson)].mastery == Some(best)
    {
      var key := Key(profile, lesson);
      var existing := Find(rows, key);
      best := mastery;
      if existing.Some? && existing.value.mastery.Some? {
        best := Max(existing.value.mastery.value, mastery);
      }
      var status := if best.NeedsRevisiting() then LessonStatus.NeedsReview else LessonStatus.Passed;
      if existing.Some? {
        var row := existing.value;
        var completedAt := if row.completedAt.Some? then row.completedAt else Some(now);
        rows := rows[key := Row(status, row.attempts + 1, row.hintsUsed + hintsUsed,
                                row.solutionRevealed || solutionRevealed, Some(best), best.Score(),
                                row.firstStartedAt, completedAt, Some(now))];
      } else {
        rows := rows[key := Row(status, 1, hintsUsed, solutionRevealed, Some(best), best.Score(),
                                Some(now), Some(now), Some(now))];
      }
    }

    method RecordLessonAttempt(profile: int, lesson: string, now: int)
      modifies this
      ensures rows == Apply(old(rows), Key(profile, lesson), FailedAttempt(now))
    {
      var key := Key(profile, lesson);
      if key in rows {
        rows := rows[key := rows[key].(attempts := rows[key].attempts + 1, lastAttemptAt := Some(now))];
      } else {
        rows := rows[key := Row(InProgress, 1, 0, false, None, 0, Some(now), None, Some(now))];
      }
    }

    method AddHintUsed(profile: int, lesson: string, now: int)
      modifies this
      ensures rows == Apply(old(rows), Key(profile, lesson), HintUsed(now))
    {
      var key := Key(profile, lesson);
      if key in rows {
        rows := rows[key := rows[key].(hintsUsed := rows[key].hintsUsed + 1, lastAttemptAt := Some(now))];
      } else {
        rows := rows[key := Row(InProgress, 0, 1, false, None, 0, Some(now), None, Some(now))];
      }
    }
  }

  // ---------------------------------------------------------------- whole runs

  datatype Call = Call(key: Key, event: Event)

  function Run(rows: map<Key, Row>, calls: seq<Call>): map<Key, Row>
    decreases |calls|
  {
    if calls == [] then rows
    else
      var before := Run(rows, calls[..|calls| - 1]);
      Apply(before, calls[|calls| - 1].key, calls[|calls| - 1].event)
  }

  /** The events of a run that concern one lesson of one profile. */
  function History(calls: seq<Call>, key: Key): seq<Event>
    decreases |calls|
  {
    if calls == [] then []
    else
      var last := calls[|calls| - 1];
      History(calls[..|calls| - 1], key) + if last.key == key then [last.event] else []
  }

  /** The completions among some events, in order. */
  function Completions(events: seq<Event>): seq<Event> {
    if events == [] then []
    else
      var last := events[|events| - 1];
      Completions(events[..|events| - 1]) + if last.Complete? then [last] else []
  }

  function BestReached(events: seq<Event>): (r: Option<MasteryStatus>)
    ensures r.None? <==> forall e :: e in events ==> !e.Complete?
    ensures r.Some? ==> (exists e :: e in events && e.Complete? && e.reached == r.value)
                        && forall e :: e in events && e.Complete? ==> e.reached.AtMost(r.value)
  {
    if events == [] then None
    else
      var last, best := events[|events| - 1], BestReached(events[..|events| - 1]);
      assert events == events[..|events| - 1] + [last];
      if !last.Complete? then best
      else if best.Some? then Some(Max(best.value, last.reached))
      else Some(last.reached)
  }

  function Attempts(events: seq<Event>): nat {
    if events == [] then 0
    else
      var last := events[|events| - 1];
      Attempts(events[..|events| - 1]) + if last.Complete? || last.FailedAttempt? then 1 else 0
  }

  function Hints(events: seq<Event>): nat {
    if events == [] then 0
    else
      var last := events[|events| - 1];
      Hints(events[..|events| - 1]) + if last.Complete? then last.hints else if last.HintUsed? then 1 else 0
  }

  /** A row told from the whole history at once. */
  ghost function Summary(events: seq<Event>): Row
    requires events != []
  {
    var best, done := BestReached(events), Completions(events);
    Row(if best.None? then InProgress else StatusOf(best.value),
        Attempts(events), Hints(events),
        AnyRevealed(events),
        best, if best.None? then 0 else best.value.Score(),
        Some(events[0].now),
        if done == [] then None else Some(done[0].now),
        Some(events[|events| - 1].now))
  }

  lemma {:induction false} CompletionsExist(events: seq<Event>)
    ensures Completions(events) == [] <==> BestReached(events).None?
  {
    if events != [] {
      CompletionsExist(events[..|events| - 1]);
    }
  }

  ghost predicate AnyRevealed(events: seq<Event>) {
    exists e :: e in events && e.Complete? && e.revealed
  }

  /** How one more event changes each part of the summary. */
  lemma PartsStep(events: seq<Event>, e: Event)
    ensures Completions(events + [e]) == Completions(events) + if e.Complete? then [e] else []
    ensures Attempts(events + [e]) == Attempts(events) + if e.Complete? || e.FailedAttempt? then 1 else 0
    ensures Hints(events + [e]) == Hints(events) + if e.Complete? then e.hints else if e.HintUsed? then 1 else 0
  {
    assert (events + [e])[..|events|] == events;
  }

  lemma BestStep(events: seq<Event>, e: Event)
    ensures AnyRevealed(events + [e]) <==> AnyRevealed(events) || (e.Complete? && e.revealed)
    ensures BestReached(events + [e])
         == if !e.Complete? then BestReached(events)
            else if BestReached(events).None? then Some(e.reached)
            else Some(Max(BestReached(events).value, e.reached))
  {
    assert (events + [e])[..|events|] == events;
    assert forall x :: x in events + [e] <==> x in events || x == e;
  }

  lemma PartsOfNothing()
    ensures BestReached([]).None? && Completions([]) == [] && Attempts([]) == 0 && Hints([]) == 0 && !AnyRevealed([])
  {
  }

  lemma SummaryFirst(e: Event)
    ensures Summary([e]) == Inserted(e)
  {
    PartsOfNothing();
    PartsStep([], e);
    BestStep([], e);
    hide BestReached, Completions, Attempts, Hints, AnyRevealed, StatusOf;
    assert [] + [e] == [e];
  }

  /** One more event changes the summary the way its statement changes the row. */
  lemma SummaryStep(events: seq<Event>, e: Event)
    requires events != []
    ensures Summary(events + [e]) == Updated(Summary(events), e)
  {
    hide BestReached, Completions, Attempts, Hints, AnyRevealed, StatusOf, Max;
    PartsStep(events, e);
    BestStep(events, e);
    CompletionsExist(events);
    var more, row, next := events + [e], Summary(events), Summary(events + [e]);
    assert more[0] == events[0] && more[|more| - 1] == e;
    if e.Complete? {
      assert next == Updated(row, e);
    } else {
      StatusIsNotNotStarted(BestReached(events));
      assert next == Updated(row, e);
    }
  }

  lemma StatusIsNotNotStarted(best: Option<MasteryStatus>)
    ensures best.Some? ==> StatusOf(best.value) != NotStarted
  {
  }

  /** After any sequence of calls the row of a lesson says exactly what happened to that lesson:
      the best mastery ever reached, `passed` if and only if that mastery is at least Passed, how
      often it was attempted, every hint, whether a completed run had its solution shown, and
      when it was first started, first completed and last touched. */
  lemma {:induction false} RowIsSummary(calls: seq<Call>, key: Key)
    ensures Find(Run(map[], calls), key)
         == if History(calls, key) == [] then None else Some(Summary(History(calls, key)))
    decreases |calls|
  {
    if calls != [] {
      hide Summary, Inserted, Updated;
      var last := calls[|calls| - 1];
      RowIsSummary(calls[..|calls| - 1], key);
      var earlier := History(calls[..|calls| - 1], key);
      if earlier == [] { SummaryFirst(last.event); } else { SummaryStep(earlier, last.event); }
      assert earlier == [] ==> earlier + [last.event] == [last.event];
      assert History(calls, key) == if last.key == key then earlier + [last.event] else earlier;
    }
  }

  /** What no later call takes back. */
  ghost predicate Improves(row: Row, later: Row) {
    && row.attempts <= later.attempts && row.hintsUsed <= later.hintsUsed
    && (row.solutionRevealed ==> later.solutionRevealed)
    && (row.mastery.Some? ==> later.mastery.Some? && row.mastery.value.AtMost(later.mastery.value))
    && row.score <= later.score
    && (row.status == LessonStatus.Passed ==> later.status == LessonStatus.Passed)
    && row.firstStartedAt == later.firstStartedAt
    && (row.completedAt.Some? ==> later.completedAt == row.completedAt)
  }

  /** A row that some run can leave behind. */
  ghost predicate RowOk(row: Row) {
    && row.status == (if row.mastery.None? then InProgress else StatusOf(row.mastery.value))
    && row.score == (if row.mastery.None? then 0 else row.mastery.value.Score())
    && (row.completedAt.Some? <==> row.mastery.Some?)
    && row.firstStartedAt.Some? && row.lastAttemptAt.Some?
  }

  lemma UpdateImproves(row: Row, e: Event)
    requires RowOk(row)
    ensures RowOk(Updated(row, e)) && Improves(row, Updated(row, e))
  {
  }

  lemma {:induction false} RunKeepsRowsOk(calls: seq<Call>)
    ensures forall key :: key in Run(map[], calls) ==> RowOk(Run(map[], calls)[key])
    decreases |calls|
  {
    if calls != [] {
      var before, last := Run(map[], calls[..|calls| - 1]), calls[|calls| - 1];
      RunKeepsRowsOk(calls[..|calls| - 1]);
      hide RowOk, Run;
      forall key | key in Apply(before, last.key, last.event) ensures RowOk(Apply(before, last.key, last.event)[key]) {
        if key == last.key {
          if key in before { UpdateImproves(before[key], last.event); } else { InsertIsOk(last.event); }
        }
      }
      assert Run(map[], calls) == Apply(before, last.key, last.event) by { RunLast(map[], calls); }
    }
  }

  lemma InsertIsOk(e: Event)
    ensures RowOk(Inserted(e))
  {
  }

  lemma RunLast(rows: map<Key, Row>, calls: seq<Call>)
    requires calls != []
    ensures Run(rows, calls) == Apply(Run(rows, calls[..|calls| - 1]), calls[|calls| - 1].key, calls[|calls| - 1].event)
  {
  }

  /** However a run goes on, nothing a row has gained is lost. */
  lemma {:induction false} RunNeverTakesBack(calls: seq<Call>, more: seq<Call>, key: Key)
    requires key in Run(map[], calls)
    ensures key in Run(map[], calls + more)
    ensures Improves(Run(map[], calls)[key], Run(map[], calls + more)[key])
    decreases |more|
  {
    if more == [] {
      assert calls + more == calls;
    } else {
      var all, shorter := calls + more, calls + more[..|more| - 1];
      assert all[..|all| - 1] == shorter;
      RunNeverTakesBack(calls, more[..|more| - 1], key);
      RunKeepsRowsOk(shorter);
      RunLast(map[], all);
      var row := Run(map[], shorter)[key];
      if all[|all| - 1].key == key {
        hide Run;
        UpdateImproves(row, all[|all| - 1].event);
        ImprovesIsTransitive(Run(map[], calls)[key], row, Updated(row, all[|all| - 1].event));
      }
    }
  }

  lemma ImprovesIsTransitive(a: Row, b: Row, c: Row)
    requires Improves(a, b) && Improves(b, c)
    ensures Improves(a, c)
  {
  }

  // ---------------------------------------------------------------- progress and unlocking

  /** The index that `bootstrap` builds from the rows of a profile. */
  function Index(rows: map<Key, Row>, profile: int): GuidedPath.ProgressIndex {
    map key | key in rows && key.profile == profile ::
      key.lesson := GuidedPath.LessonState(rows[key].status, rows[key].mastery)
  }

  /** A lesson that Guided Path has opened stays open through every further call. */
  lemma OpenLessonsStayOpen(c: LessonCatalog.Catalog, calls: seq<Call>, more: seq<Call>, profile: int, lesson: string)
    requires GuidedPath.Unlocked(c, Index(Run(map[], calls), profile), lesson)
    ensures GuidedPath.Unlocked(c, Index(Run(map[], calls + more), profile), lesson)
  {
    var index, later := Index(Run(map[], calls), profile), Index(Run(map[], calls + more), profile);
    forall v | GuidedPath.IsPassed(index, v) ensures GuidedPath.IsPassed(later, v) {
      var key := Key(profile, v);
      assert key in Run(map[], calls);
      RunNeverTakesBack(calls, more, key);
      assert key in Run(map[], calls + more);
    }
    GuidedPath.UnlockedIsMonotone(c, index, later, lesson);
  }

  /** What `check_task` stores when the required tasks of a lesson have passed: the lesson is
      `passed` exactly if it was before, or if every attempt recorded for it, optional tasks
      included, passed without its solution being shown.  Hints do not matter. */
  lemma CompletionPasses(row: Option<Row>, attempts: seq<Attempt>, isAssessment: bool, hints: nat, revealed: bool,
                         now: int)
    requires row.Some? ==> RowOk(row.value)
    ensures Upsert(row, Complete(LessonMastery(attempts, isAssessment), hints, revealed, now)).status
              == LessonStatus.Passed
       <==> || (row.Some? && row.value.status == LessonStatus.Passed)
            || (attempts != [] && forall a :: a in attempts ==> a.passed && !a.solutionRevealed)
  {
    LessonMasteryPasses(attempts, isAssessment);
  }
}
