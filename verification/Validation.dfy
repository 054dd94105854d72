/** Running the validators of a task and scoring the result (guest/linuxlab-agent/src/validators
    mod.rs, script.rs and args.rs, and crates/shared-types/src/validation.rs). */
module TaskValidation {
  import opened Prelude
  import opened ValidatorRegistry

  // ---------------------------------------------------------------- outcomes

  datatype CheckOutcome = CheckOutcome(
    kind: string, passed: bool, message: string, category: Option<string>, weight: nat, errored: bool)

  function PassOutcome(kind: string, message: string): CheckOutcome {
    CheckOutcome(kind, true, message, None, 1, false)
  }

  function FailOutcome(kind: string, message: string, category: string): CheckOutcome {
    CheckOutcome(kind, false, message, Some(category), 1, false)
  }

  function ErrorOutcome(kind: string, message: string): CheckOutcome {
    CheckOutcome(kind, false, message, None, 1, true)
  }

  const FAILURE_CATEGORIES: set<string> := {
    "command_not_found", "invalid_option", "wrong_working_directory", "wrong_path",
    "permission_denied", "file_already_exists", "wrong_file_type", "wrong_file_contents",
    "wrong_ownership", "wrong_permissions", "process_not_running", "service_not_active",
    "wrong_port", "incorrect_redirect", "pipeline_output_incorrect", "script_syntax_failure",
    "script_logic_failure", "network_unreachable", "dns_failure", "task_partially_completed"
  }

  function StrParam(v: Validator, key: string): Option<string> {
    var value: Option<Json> := Get(v.params, key);
    if value.Some? && value.value.Str? then Some(value.value.s) else None
  }

  function I64Param(v: Validator, key: string): Option<int> {
    var value: Option<Json> := Get(v.params, key);
    if value.Some? then AsI64(value.value) else None
  }

  function Clamp(n: int, low: int, high: int): int {
    if n < low then low else if n > high then high else n
  }

  /** `apply_overrides`: the author's message and category for plain failures, and the weight. */
  function ApplyOverrides(v: Validator, outcome: CheckOutcome): CheckOutcome {
    var plain := !outcome.passed && !outcome.errored;
    var message := StrParam(v, "message");
    var category := StrParam(v, "failureCategory");
    var weight := I64Param(v, "weight");
    var o1 := if plain && message.Some? then outcome.(message := message.value) else outcome;
    var known := plain && category.Some? && category.value in FAILURE_CATEGORIES;
    var o2 := if known then o1.(category := Some(category.value)) else o1;
    if weight.Some? then o2.(weight := Clamp(weight.value, 1, 100)) else o2
  }

  /** An author can reword a plain failure, put it into a known category and weigh a check, but never turn
      a verdict; a pass or an error keeps its text too. */
  lemma OverridesKeepTheVerdict(v: Validator, outcome: CheckOutcome)
    ensures var r := ApplyOverrides(v, outcome);
      && r.passed == outcome.passed && r.errored == outcome.errored && r.kind == outcome.kind
      && (outcome.passed || outcome.errored ==> r.message == outcome.message && r.category == outcome.category)
      && (1 <= outcome.weight <= 100 ==> 1 <= r.weight <= 100)
      && (forall n :: I64_MIN <= n <= I64_MAX && Get(v.params, "weight") == Some(Int(n)) ==>
          r.weight == if n < 1 then 1 else if n > 100 then 100 else n)
      && (!Has(v.params, "weight") ==> r.weight == outcome.weight)
    ensures var r := ApplyOverrides(v, outcome);
      !outcome.passed && !outcome.errored ==>
        && (forall text :: Get(v.params, "message") == Some(Str(text)) ==> r.message == text)
        && (!Has(v.params, "message") ==> r.message == outcome.message)
        && (forall name :: Get(v.params, "failureCategory") == Some(Str(name)) ==>
            r.category == if name in FAILURE_CATEGORIES then Some(name) else outcome.category)
        && (!Has(v.params, "failureCategory") ==> r.category == outcome.category)
  {
    hide FAILURE_CATEGORIES, Has;
  }

  // ---------------------------------------------------------------- evaluation

  datatype CommandResult = Unusable(message: string) | TimedOut | Finished

  /** The guest: `leaf` is the handler of every kind except `side_effect_exists` (`None` for a
      kind that no module claims), and `run` executes a command.  Both may change the world. */
  datatype Guest<!W> = Guest(
    leaf: (W, Validator) -> (W, Option<CheckOutcome>),
    run: (W, string) -> (W, CommandResult))

  /** One evaluation that took place, with the outcome it gave. */
  datatype Evaluation = Evaluation(validator: Validator, outcome: CheckOutcome)

  datatype Evaluated<W> = Evaluated(world: W, outcome: CheckOutcome, log: seq<Evaluation>)

  const SIDE_EFFECT := "side_effect_exists"

  /** `evaluate`: registry check, dispatch, then author overrides. */
  function Evaluate<W>(reg: Registry, guest: Guest<W>, w: W, v: Validator): Evaluated<W>
    decreases FieldsSize(v.params), 3
  {
    if Check(reg, v).Err? then
      var outcome := ErrorOutcome(v.kind, "this task cannot be checked");
      Evaluated(w, outcome, [Evaluation(v, outcome)])
    else
      var raw := Dispatch(reg, guest, w, v);
      var outcome := ApplyOverrides(v, raw.outcome);
      Evaluated(raw.world, outcome, raw.log + [Evaluation(v, outcome)])
  }

  function Dispatch<W>(reg: Registry, guest: Guest<W>, w: W, v: Validator): Evaluated<W>
    decreases FieldsSize(v.params), 2
  {
    if v.kind == SIDE_EFFECT then SideEffect(reg, guest, w, v)
    else
      var (w', handled) := guest.leaf(w, v);
      match handled
      case Some(outcome) => Evaluated(w', outcome, [])
      case None => Evaluated(w', ErrorOutcome(v.kind, "this agent has no handler for it"), [])
  }

  /** The parameter that lists the nested validators, if it is a list. */
  function NestedItems(v: Validator): (r: Option<seq<Json>>)
    ensures r.Some? ==> ItemsSize(r.value) < FieldsSize(v.params)
  {
    var value: Option<Json> := Get(v.params, "then");
    if value.Some? && value.value.Arr? then
      GetIsSmaller(v.params, "then");
      Some(value.value.items)
    else None
  }

  lemma {:induction false} GetIsSmaller(fields: seq<Entry<Json>>, key: string)
    requires Has(fields, key)
    ensures Size(Get(fields, key).value) < FieldsSize(fields)
  {
    if fields[0].key != key {
      assert Has(fields[1..], key);
      GetIsSmaller(fields[1..], key);
    }
  }

  /** `side_effect_exists`: runs a command, then the nested validators on what it left. */
  function SideEffect<W>(reg: Registry, guest: Guest<W>, w: W, v: Validator): Evaluated<W>
    decreases FieldsSize(v.params), 1
  {
    var command := StrParam(v, "command");
    if command.None? then Evaluated(w, ErrorOutcome(v.kind, "command parameter"), [])
    else
      var (w', result) := guest.run(w, command.value);
      match result
      case Unusable(message) => Evaluated(w', ErrorOutcome(v.kind, message), [])
      case TimedOut => Evaluated(w', FailOutcome(v.kind, "did not finish in time", "script_logic_failure"), [])
      case Finished =>
        var nested := NestedItems(v);
        if nested.None? then Evaluated(w', ErrorOutcome(v.kind, "then parameter"), [])
        else
          var ran := EvaluateItems(reg, guest, w', nested.value);
          Evaluated(ran.world, Verdict(v.kind, ran), ran.log)
  }

  /** The loop over nested validators: it stops at a malformed one, and goes on past failures. */
  datatype Ran<W> = Ran(world: W, malformed: bool, failed: bool, log: seq<Evaluation>)

  function Verdict<W>(kind: string, ran: Ran<W>): CheckOutcome {
    if ran.malformed then ErrorOutcome(kind, "a nested validator is malformed")
    else if !ran.failed then PassOutcome(kind, "Running the command produced the expected result.")
    else FailOutcome(kind, "it did not have the effect the task asked for", "script_logic_failure")
  }

  function EvaluateItems<W>(reg: Registry, guest: Guest<W>, w: W, items: seq<Json>): Ran<W>
    decreases ItemsSize(items), 0
  {
    if items == [] then Ran(w, false, false, [])
    else
      match FromJson(items[0])
      case None => Ran(w, true, false, [])
      case Some(nested) =>
        var first := Evaluate(reg, guest, w, nested);
        var rest := EvaluateItems(reg, guest, first.world, items[1..]);
        Ran(rest.world, rest.malformed, !first.outcome.passed || rest.failed, first.log + rest.log)
  }

  /** The same loop as the agent writes it, with a list of failure messages. */
  method SideEffectExists<W>(reg: Registry, guest: Guest<W>, w: W, v: Validator) returns (r: Evaluated<W>)
    ensures r == SideEffect(reg, guest, w, v)
  {
    hide Evaluate;
    var command := StrParam(v, "command");
    if command.None? {
      return Evaluated(w, ErrorOutcome(v.kind, "command parameter"), []);
    }
    var (world, result) := guest.run(w, command.value);
    if result.Unusable? {
      return Evaluated(world, ErrorOutcome(v.kind, result.message), []);
    }
    if result.TimedOut? {
      return Evaluated(world, FailOutcome(v.kind, "did not finish in time", "script_logic_failure"), []);
    }
    var nested := NestedItems(v);
    if nested.None? {
      return Evaluated(world, ErrorOutcome(v.kind, "then parameter"), []);
    }
    var items := nested.value;
    ghost var all := EvaluateItems(reg, guest, world, items);
    var failed: seq<string> := [];
    var log: seq<Evaluation> := [];
    for n := 0 to |items|
      invariant var rest := EvaluateItems(reg, guest, world, items[n..]);
        all == Ran(rest.world, rest.malformed, failed != [] || rest.failed, log + rest.log)
    {
      assert items[n..][1..] == items[n + 1..];
      var read := FromJson(items[n]);
      if read.None? {
        return Evaluated(world, ErrorOutcome(v.kind, "a nested validator is malformed"), log);
      }
      var one := Evaluate(reg, guest, world, read.value);
      world := one.world;
      log := log + one.log;
      if !one.outcome.passed {
        failed := failed + [one.outcome.message];
      }
    }
    if failed == [] {
      r := Evaluated(world, PassOutcome(v.kind, "Running the command produced the expected result."), log);
    } else {
      var missed := FailOutcome(v.kind, "it did not have the effect the task asked for", "script_logic_failure");
      r := Evaluated(world, missed, log);
    }
  }

  // ---------------------------------------------------------------- what a pass means

  /** `v` and everything nested in its `then` lists, at every depth. */
  ghost function Demands(v: Validator): seq<Validator>
    decreases FieldsSize(v.params), 1
  {
    [v] + if v.kind == SIDE_EFFECT && NestedItems(v).Some? then DemandsOf(NestedItems(v).value) else []
  }

  ghost function DemandsOf(items: seq<Json>): seq<Validator>
    decreases ItemsSize(items), 0
  {
    if items == [] then []
    else
      (match FromJson(items[0]) case Some(v) => Demands(v) case None => []) + DemandsOf(items[1..])
  }

  /** The validators that were evaluated, in the order of their verdicts. */
  function Checked(log: seq<Evaluation>): (r: seq<Validator>)
    ensures |r| == |log| && forall i :: 0 <= i < |log| ==> r[i] == log[i].validator
  {
    if log == [] then [] else [log[0].validator] + Checked(log[1..])
  }

  /** Exactly these demands were evaluated, each as often as it is made; every one was well formed
      for the registry and passed. */
  ghost predicate AllMet(reg: Registry, log: seq<Evaluation>, demands: seq<Validator>) {
    && multiset(Checked(log)) == multiset(demands)
    && forall e :: e in log ==> e.outcome.passed && WellFormed(reg, e.validator)
  }

  lemma CheckedConcat(log: seq<Evaluation>, log': seq<Evaluation>)
    ensures Checked(log + log') == Checked(log) + Checked(log')
  {
  }

  lemma AllMetConcat(reg: Registry, log: seq<Evaluation>, demands: seq<Validator>, log': seq<Evaluation>,
                     demands': seq<Validator>)
    requires AllMet(reg, log, demands) && AllMet(reg, log', demands')
    ensures AllMet(reg, log + log', demands + demands')
  {
    hide WellFormed, Checked;
    CheckedConcat(log, log');
  }

  /** A check passes only if it and every validator nested in it, at every depth, is well formed,
      was itself evaluated, exactly once for each time it is listed, and passed. */
  lemma {:induction false} PassedMeansAllMet<W>(reg: Registry, guest: Guest<W>, w: W, v: Validator)
    requires Evaluate(reg, guest, w, v).outcome.passed
    ensures AllMet(reg, Evaluate(reg, guest, w, v).log, Demands(v))
    decreases FieldsSize(v.params), 3
  {
    hide WellFormed, Check, ApplyOverrides, AllMet, SideEffect;
    CheckIsWellFormedness(reg, v);
    var raw := Dispatch(reg, guest, w, v);
    OverridesKeepTheVerdict(v, raw.outcome);
    var own := Evaluation(v, ApplyOverrides(v, raw.outcome));
    OneMet(reg, own);
    if v.kind == SIDE_EFFECT {
      SideEffectPassed(reg, guest, w, v);
      var w' := guest.run(w, StrParam(v, "command").value).0;
      ItemsPassedMeansAllMet(reg, guest, w', NestedItems(v).value);
      AllMetConcat(reg, raw.log, DemandsOf(NestedItems(v).value), [own], [v]);
      assert Demands(v) == [v] + DemandsOf(NestedItems(v).value);
      AllMetReordered(reg, raw.log + [own], DemandsOf(NestedItems(v).value) + [v], Demands(v));
    } else {
      assert raw.log == [] && raw.log + [own] == [own] && Demands(v) == [v];
    }
  }

  lemma SideEffectPassed<W>(reg: Registry, guest: Guest<W>, w: W, v: Validator)
    requires SideEffect(reg, guest, w, v).outcome.passed
    ensures StrParam(v, "command").Some? && NestedItems(v).Some?
    ensures var ran := EvaluateItems(reg, guest, guest.run(w, StrParam(v, "command").value).0, NestedItems(v).value);
      !ran.malformed && !ran.failed && SideEffect(reg, guest, w, v).log == ran.log
  {
    hide EvaluateItems, NestedItems, StrParam;
  }

  lemma OneMet(reg: Registry, e: Evaluation)
    requires e.outcome.passed && WellFormed(reg, e.validator)
    ensures AllMet(reg, [e], [e.validator])
  {
    hide WellFormed;
    assert Checked([e]) == [e.validator];
  }

  lemma AllMetReordered(reg: Registry, log: seq<Evaluation>, demands: seq<Validator>, demands': seq<Validator>)
    requires AllMet(reg, log, demands) && multiset(demands) == multiset(demands')
    ensures AllMet(reg, log, demands')
  {
    hide WellFormed;
  }

  lemma {:induction false} ItemsPassedMeansAllMet<W>(reg: Registry, guest: Guest<W>, w: W, items: seq<Json>)
    requires !EvaluateItems(reg, guest, w, items).malformed && !EvaluateItems(reg, guest, w, items).failed
    ensures AllMet(reg, EvaluateItems(reg, guest, w, items).log, DemandsOf(items))
    decreases ItemsSize(items), 0
  {
    hide WellFormed, Evaluate, AllMet;
    if items == [] {
      NothingToMeet(reg);
    } else {
      var v := FromJson(items[0]).value;
      var first := Evaluate(reg, guest, w, v);
      PassedMeansAllMet(reg, guest, w, v);
      ItemsPassedMeansAllMet(reg, guest, first.world, items[1..]);
      AllMetConcat(reg, first.log, Demands(v), EvaluateItems(reg, guest, first.world, items[1..]).log,
                   DemandsOf(items[1..]));
    }
  }

  lemma NothingToMeet(reg: Registry)
    ensures AllMet(reg, [], [])
  {
  }

  // ---------------------------------------------------------------- a whole task

  datatype Summary = Summary(
    passed: bool, outcomes: seq<CheckOutcome>, completionPercent: nat, primaryFailure: Option<CheckOutcome>,
    errored: bool)

  function TotalWeight(outcomes: seq<CheckOutcome>): nat {
    if outcomes == [] then 0 else outcomes[0].weight + TotalWeight(outcomes[1..])
  }

  function EarnedWeight(outcomes: seq<CheckOutcome>): (n: nat)
    ensures n <= TotalWeight(outcomes)
  {
    if outcomes == [] then 0 else (if outcomes[0].passed then outcomes[0].weight else 0) + EarnedWeight(outcomes[1..])
  }

  /** `(earned / total * 100).round()`, rounding halves up. */
  function Percent(earned: nat, total: nat): nat {
    if total == 0 then 0 else (200 * earned + total) / (2 * total)
  }

  /** A check that did not pass; with `plain` set, errored checks do not count. */
  predicate Wrong(o: CheckOutcome, plain: bool) {
    !o.passed && !(plain && o.errored)
  }

  function FirstWrong(outcomes: seq<CheckOutcome>, plain: bool): (r: Option<nat>)
    ensures r.None? ==> forall i :: 0 <= i < |outcomes| ==> !Wrong(outcomes[i], plain)
    ensures r.Some? ==> r.value < |outcomes| && Wrong(outcomes[r.value], plain)
    ensures r.Some? ==> forall i :: 0 <= i < r.value ==> !Wrong(outcomes[i], plain)
  {
    if outcomes == [] then None
    else if Wrong(outcomes[0], plain) then Some(0)
    else
      match FirstWrong(outcomes[1..], plain)
      case Some(i) => Some(i + 1)
      case None => None
  }

  function FirstWhere(outcomes: seq<CheckOutcome>, plain: bool): Option<CheckOutcome> {
    match FirstWrong(outcomes, plain)
    case Some(i) => Some(outcomes[i])
    case None => None
  }

  /** `TaskValidation::from_outcomes`. */
  function FromOutcomes(outcomes: seq<CheckOutcome>): Summary {
    Summary(
      outcomes != [] && forall o :: o in outcomes ==> o.passed,
      outcomes,
      Percent(EarnedWeight(outcomes), TotalWeight(outcomes)),
      if FirstWhere(outcomes, true).Some? then FirstWhere(outcomes, true) else FirstWhere(outcomes, false),
      exists o :: o in outcomes && o.errored)
  }

  datatype Course = Course(outcomes: seq<CheckOutcome>, log: seq<Evaluation>)

  function EvaluateAll<W>(reg: Registry, guest: Guest<W>, w: W, validators: seq<Validator>): Course
    decreases |validators|
  {
    if validators == [] then Course([], [])
    else
      var first := Evaluate(reg, guest, w, validators[0]);
      var rest := EvaluateAll(reg, guest, first.world, validators[1..]);
      Course([first.outcome] + rest.outcomes, first.log + rest.log)
  }

  // ---------------------------------------------------------------- when a check passes

  /** The world in which `v` leaves the guest if everything that it demands is met, one demand after the
      other: it is well formed; a leaf's handler is there and passes; and a side effect's command
      finishes, its `then` is a list of validators, and each of them is met in turn. */
  ghost function Fulfilled<W>(reg: Registry, guest: Guest<W>, w: W, v: Validator): Option<W>
    decreases FieldsSize(v.params), 1
  {
    if !WellFormed(reg, v) then None
    else if v.kind == SIDE_EFFECT then
      var command: Option<Json> := Get(v.params, "command");
      if command.None? || !command.value.Str? then None
      else
        var (left, result) := guest.run(w, command.value.s);
        if result.Finished? && NestedItems(v).Some? then FulfilledAll(reg, guest, left, NestedItems(v).value) else None
    else
      var (left, handled) := guest.leaf(w, v);
      if handled.Some? && handled.value.passed then Some(left) else None
  }

  ghost function FulfilledAll<W>(reg: Registry, guest: Guest<W>, w: W, items: seq<Json>): Option<W>
    decreases ItemsSize(items), 0
  {
    if items == [] then Some(w)
    else if FromJson(items[0]).None? then None
    else
      var left := Fulfilled(reg, guest, w, FromJson(items[0]).value);
      if left.Some? then FulfilledAll(reg, guest, left.value, items[1..]) else None
  }

  /** A check passes exactly if everything that it demands, at every depth, is met in turn; and then it
      leaves the world that meeting the demands leaves. */
  lemma {:induction false} PassesExactlyWhenFulfilled<W>(reg: Registry, guest: Guest<W>, w: W, v: Validator)
    ensures Evaluate(reg, guest, w, v).outcome.passed <==> Fulfilled(reg, guest, w, v).Some?
    ensures Evaluate(reg, guest, w, v).outcome.passed ==>
              Fulfilled(reg, guest, w, v) == Some(Evaluate(reg, guest, w, v).world)
    decreases FieldsSize(v.params), 3
  {
    hide WellFormed, Check, ApplyOverrides, SideEffect, FulfilledAll, EvaluateItems, NestedItems, StrParam;
    CheckIsWellFormedness(reg, v);
    OverridesKeepTheVerdict(v, Dispatch(reg, guest, w, v).outcome);
    if WellFormed(reg, v) && v.kind == SIDE_EFFECT {
      SideEffectUnfolds(reg, guest, w, v);
      SideEffectFulfilled(reg, guest, w, v);
      var command := StrParam(v, "command");
      if command.Some? && NestedItems(v).Some? {
        ItemsPassExactlyWhenFulfilled(reg, guest, guest.run(w, command.value).0, NestedItems(v).value);
      }
      assert SideEffect(reg, guest, w, v).outcome.passed <==> Fulfilled(reg, guest, w, v).Some?;
      assert Dispatch(reg, guest, w, v) == SideEffect(reg, guest, w, v);
      assert Evaluate(reg, guest, w, v).outcome == ApplyOverrides(v, Dispatch(reg, guest, w, v).outcome);
    } else if WellFormed(reg, v) {
      var (left, handled) := guest.leaf(w, v);
      assert Fulfilled(reg, guest, w, v) == if handled.Some? && handled.value.passed then Some(left) else None;
    }
  }

  lemma SideEffectFulfilled<W>(reg: Registry, guest: Guest<W>, w: W, v: Validator)
    requires WellFormed(reg, v) && v.kind == SIDE_EFFECT
    ensures var command := StrParam(v, "command");
      Fulfilled(reg, guest, w, v)
        == if command.Some? && guest.run(w, command.value).1.Finished? && NestedItems(v).Some?
           then FulfilledAll(reg, guest, guest.run(w, command.value).0, NestedItems(v).value) else None
  {
    hide WellFormed, FulfilledAll, NestedItems;
  }

  lemma SideEffectUnfolds<W>(reg: Registry, guest: Guest<W>, w: W, v: Validator)
    ensures var r, command := SideEffect(reg, guest, w, v), StrParam(v, "command");
      && (r.outcome.passed ==> command.Some? && guest.run(w, command.value).1.Finished? && NestedItems(v).Some?)
      && (command.Some? && guest.run(w, command.value).1.Finished? && NestedItems(v).Some? ==>
          var ran := EvaluateItems(reg, guest, guest.run(w, command.value).0, NestedItems(v).value);
          r.world == ran.world && (r.outcome.passed <==> !ran.malformed && !ran.failed))
  {
    hide EvaluateItems, NestedItems, StrParam;
  }

  lemma {:induction false} ItemsPassExactlyWhenFulfilled<W>(reg: Registry, guest: Guest<W>, w: W, items: seq<Json>)
    ensures var ran := EvaluateItems(reg, guest, w, items);
      && (!ran.malformed && !ran.failed <==> FulfilledAll(reg, guest, w, items).Some?)
      && (!ran.malformed && !ran.failed ==> FulfilledAll(reg, guest, w, items) == Some(ran.world))
    decreases ItemsSize(items), 0
  {
    hide Evaluate, Fulfilled;
    if items != [] && FromJson(items[0]).Some? {
      var v := FromJson(items[0]).value;
      PassesExactlyWhenFulfilled(reg, guest, w, v);
      ItemsPassExactlyWhenFulfilled(reg, guest, Evaluate(reg, guest, w, v).world, items[1..]);
    }
  }

  /** What makes a check err rather than fail: the registry refuses it; its handler is missing or errs;
      its command cannot be run; or the command finishes and `then` is no list of validators. */
  ghost predicate Errs<W>(reg: Registry, guest: Guest<W>, w: W, v: Validator) {
    if !WellFormed(reg, v) then true
    else if v.kind != SIDE_EFFECT then guest.leaf(w, v).1.None? || guest.leaf(w, v).1.value.errored
    else
      var command: Option<Json> := Get(v.params, "command");
      || command.None? || !command.value.Str?
      || guest.run(w, command.value.s).1.Unusable?
      || (guest.run(w, command.value.s).1.Finished?
          && (NestedItems(v).None? || exists item :: item in NestedItems(v).value && FromJson(item).None?))
  }

  lemma ErrsExactly<W>(reg: Registry, guest: Guest<W>, w: W, v: Validator)
    ensures Evaluate(reg, guest, w, v).outcome.errored <==> Errs(reg, guest, w, v)
  {
    hide WellFormed, Check, ApplyOverrides, SideEffect, NestedItems;
    CheckIsWellFormedness(reg, v);
    OverridesKeepTheVerdict(v, Dispatch(reg, guest, w, v).outcome);
    if v.kind == SIDE_EFFECT {
      SideEffectErrs(reg, guest, w, v);
    }
  }

  lemma SideEffectErrs<W>(reg: Registry, guest: Guest<W>, w: W, v: Validator)
    ensures var command := StrParam(v, "command");
      SideEffect(reg, guest, w, v).outcome.errored <==>
        || command.None?
        || guest.run(w, command.value).1.Unusable?
        || (guest.run(w, command.value).1.Finished?
            && (NestedItems(v).None? || exists item :: item in NestedItems(v).value && FromJson(item).None?))
  {
    hide EvaluateItems, NestedItems, StrParam, FromJson;
    var command := StrParam(v, "command");
    if command.Some? && NestedItems(v).Some? {
      MalformedExactly(reg, guest, guest.run(w, command.value).0, NestedItems(v).value);
    }
  }

  lemma {:induction false} MalformedExactly<W>(reg: Registry, guest: Guest<W>, w: W, items: seq<Json>)
    ensures EvaluateItems(reg, guest, w, items).malformed <==> exists item :: item in items && FromJson(item).None?
    decreases |items|
  {
    hide Evaluate, FromJson;
    if items != [] {
      assert items == [items[0]] + items[1..];
      if FromJson(items[0]).Some? {
        var first := Evaluate(reg, guest, w, FromJson(items[0]).value);
        MalformedExactly(reg, guest, first.world, items[1..]);
      }
    }
  }

  /** Failures do not stop the loop: every entry ahead of the first malformed one is evaluated. */
  lemma {:induction false} FailuresDoNotStop<W>(reg: Registry, guest: Guest<W>, w: W, items: seq<Json>, k: nat)
    requires k < |items| && forall j :: 0 <= j <= k ==> FromJson(items[j]).Some?
    ensures FromJson(items[k]).value in Checked(EvaluateItems(reg, guest, w, items).log)
    decreases |items|
  {
    hide Checked, FromJson, EvaluateItems, Evaluate;
    var v := FromJson(items[0]).value;
    var first := Evaluate(reg, guest, w, v);
    var rest := EvaluateItems(reg, guest, first.world, items[1..]);
    OneMoreEntry(reg, guest, w, items);
    CheckedConcat(first.log, rest.log);
    if k == 0 {
      ChecksItself(reg, guest, w, v);
    } else {
      FailuresDoNotStop(reg, guest, first.world, items[1..], k - 1);
    }
  }

  lemma OneMoreEntry<W>(reg: Registry, guest: Guest<W>, w: W, items: seq<Json>)
    requires items != [] && FromJson(items[0]).Some?
    ensures var first := Evaluate(reg, guest, w, FromJson(items[0]).value);
      EvaluateItems(reg, guest, w, items).log == first.log + EvaluateItems(reg, guest, first.world, items[1..]).log
  {
    hide Evaluate, FromJson;
  }

  lemma ChecksItself<W>(reg: Registry, guest: Guest<W>, w: W, v: Validator)
    ensures v in Checked(Evaluate(reg, guest, w, v).log)
  {
    hide Dispatch, Check, ApplyOverrides;
    var log := Evaluate(reg, guest, w, v).log;
    assert Checked(log)[|log| - 1] == v;
  }

  ghost function FulfilledByAll<W>(reg: Registry, guest: Guest<W>, w: W, validators: seq<Validator>): Option<W>
    decreases |validators|
  {
    if validators == [] then Some(w)
    else
      var left := Fulfilled(reg, guest, w, validators[0]);
      if left.Some? then FulfilledByAll(reg, guest, left.value, validators[1..]) else None
  }

  lemma {:induction false} AllPassExactlyWhenFulfilled<W>(reg: Registry, guest: Guest<W>, w: W,
                                                          validators: seq<Validator>)
    ensures (forall o :: o in EvaluateAll(reg, guest, w, validators).outcomes ==> o.passed)
       <==> FulfilledByAll(reg, guest, w, validators).Some?
    decreases |validators|
  {
    hide Evaluate, Fulfilled;
    if validators != [] {
      var first := Evaluate(reg, guest, w, validators[0]);
      var rest := EvaluateAll(reg, guest, first.world, validators[1..]);
      PassesExactlyWhenFulfilled(reg, guest, w, validators[0]);
      AllPassExactlyWhenFulfilled(reg, guest, first.world, validators[1..]);
      assert EvaluateAll(reg, guest, w, validators) == Course([first.outcome] + rest.outcomes, first.log + rest.log);
      assert first.outcome in [first.outcome] + rest.outcomes;
      assert forall o :: o in [first.outcome] + rest.outcomes <==> o == first.outcome || o in rest.outcomes;
    }
  }

  lemma PassedSummary(outcomes: seq<CheckOutcome>)
    ensures FromOutcomes(outcomes).outcomes == outcomes
    ensures FromOutcomes(outcomes).passed <==> outcomes != [] && forall o :: o in outcomes ==> o.passed
    ensures FromOutcomes(outcomes).errored <==> exists o :: o in outcomes && o.errored
  {
    hide Percent, EarnedWeight, TotalWeight, FirstWhere;
  }

  method ValidateTask<W>(reg: Registry, guest: Guest<W>, w: W, validators: seq<Validator>)
    returns (r: Summary, ghost log: seq<Evaluation>)
    ensures r == FromOutcomes(EvaluateAll(reg, guest, w, validators).outcomes)
    ensures log == EvaluateAll(reg, guest, w, validators).log
    ensures r.passed <==> validators != [] && FulfilledByAll(reg, guest, w, validators).Some?
    ensures r.passed ==> AllMet(reg, log, DemandsOfAll(validators))
    ensures |r.outcomes| == |validators| && (r.errored <==> exists o :: o in r.outcomes && o.errored)
  {
    hide Evaluate, FromOutcomes, AllMet, DemandsOfAll, FulfilledByAll;
    var world, outcomes := w, [];
    log := [];
    ghost var all := EvaluateAll(reg, guest, w, validators);
    assert validators[0..] == validators;
    for n := 0 to |validators|
      invariant |outcomes| == n && all.outcomes == outcomes + EvaluateAll(reg, guest, world, validators[n..]).outcomes
      invariant all.log == log + EvaluateAll(reg, guest, world, validators[n..]).log
    {
      assert validators[n..][1..] == validators[n + 1..];
      var one := Evaluate(reg, guest, world, validators[n]);
      world := one.world;
      outcomes := outcomes + [one.outcome];
      log := log + one.log;
    }
    assert validators[|validators|..] == [];
    assert all.outcomes == outcomes && all.log == log;
    r := FromOutcomes(outcomes);
    PassedSummary(outcomes);
    AllPassExactlyWhenFulfilled(reg, guest, w, validators);
    if r.passed {
      AllPassedMeansAllMet(reg, guest, w, validators);
    }
  }

  ghost function DemandsOfAll(validators: seq<Validator>): seq<Validator> {
    if validators == [] then [] else Demands(validators[0]) + DemandsOfAll(validators[1..])
  }

  lemma {:induction false} AllPassedMeansAllMet<W>(reg: Registry, guest: Guest<W>, w: W, validators: seq<Validator>)
    requires forall o :: o in EvaluateAll(reg, guest, w, validators).outcomes ==> o.passed
    ensures |EvaluateAll(reg, guest, w, validators).outcomes| == |validators|
    ensures AllMet(reg, EvaluateAll(reg, guest, w, validators).log, DemandsOfAll(validators))
    decreases |validators|
  {
    hide WellFormed, Evaluate, Demands, AllMet;
    if validators == [] {
      NothingToMeet(reg);
    } else {
      var v0 := validators[0];
      var first := Evaluate(reg, guest, w, v0);
      var rest := EvaluateAll(reg, guest, first.world, validators[1..]);
      assert EvaluateAll(reg, guest, w, validators) == Course([first.outcome] + rest.outcomes, first.log + rest.log);
      assert first.outcome in [first.outcome] + rest.outcomes;
      PassedMeansAllMet(reg, guest, w, v0);
      AllPassedMeansAllMet(reg, guest, first.world, validators[1..]);
      AllMetConcat(reg, first.log, Demands(v0), rest.log, DemandsOfAll(validators[1..]));
    }
  }

  // ---------------------------------------------------------------- scoring

  lemma PercentQuotient(earned: nat, total: nat)
    requires total > 0
    ensures 2 * total * Percent(earned, total) <= 200 * earned + total < 2 * total * (Percent(earned, total) + 1)
  {
    var n, d := 200 * earned + total, 2 * total;
    assert n == d * (n / d) + n % d;
    assert d * (n / d + 1) == d * (n / d) + d;
  }

  lemma MulOrder(d: nat, a: int, b: int)
    requires d > 0
    ensures d * a < d * (b + 1) ==> a <= b
  {
    if a >= b + 1 {
      assert d * a >= d * (b + 1);
    }
  }

  /** The percentage is the nearest whole number to the exact ratio, halves going up; it is 100
      only if at most half a point is missing, and 0 only if less than half a point was earned. */
  lemma PercentIsNearest(earned: nat, total: nat)
    requires total > 0 && earned <= total
    ensures var p := Percent(earned, total);
      && 0 <= p <= 100
      && 2 * (100 * earned - total * p) < total && 2 * (total * p - 100 * earned) <= total
      && (p == 100 <==> 200 * (total - earned) <= total)
      && (p == 0 <==> 200 * earned < total)
  {
    var p := Percent(earned, total);
    PercentQuotient(earned, total);
    assert 2 * total * (p + 1) == 2 * (total * p) + 2 * total && 2 * total * p == 2 * (total * p);
    MulOrder(2 * total, p, 100);
    if 200 * (total - earned) <= total {
      MulOrder(2 * total, 100, p);
    }
    if p == 100 {
      assert total * p == 100 * total;
    }
    if 200 * earned < total {
      MulOrder(2 * total, p, 0);
    }
    if p == 0 {
      assert total * p == 0;
    }
  }

  lemma PercentIsMonotone(earned: nat, more: nat, total: nat)
    requires earned <= more
    ensures Percent(earned, total) <= Percent(more, total)
  {
    if total > 0 {
      PercentQuotient(earned, total);
      PercentQuotient(more, total);
      MulOrder(2 * total, Percent(earned, total), Percent(more, total));
    }
  }

  /** Turning one failing check into a passing one of the same weight earns exactly that weight
      and never lowers the percentage. */
  lemma {:induction false} FixingACheckEarnsItsWeight(outcomes: seq<CheckOutcome>, i: nat, fixed: CheckOutcome)
    requires i < |outcomes| && !outcomes[i].passed && fixed.passed && fixed.weight == outcomes[i].weight
    ensures TotalWeight(outcomes[i := fixed]) == TotalWeight(outcomes)
    ensures EarnedWeight(outcomes[i := fixed]) == EarnedWeight(outcomes) + outcomes[i].weight
    ensures FromOutcomes(outcomes).completionPercent <= FromOutcomes(outcomes[i := fixed]).completionPercent
    decreases |outcomes|
  {
    var after := outcomes[i := fixed];
    if i == 0 {
      assert after[1..] == outcomes[1..];
    } else {
      FixingACheckEarnsItsWeight(outcomes[1..], i - 1, fixed);
      assert after[1..] == outcomes[1..][i - 1 := fixed];
    }
    PercentIsMonotone(EarnedWeight(outcomes), EarnedWeight(after), TotalWeight(outcomes));
  }

  lemma {:induction false} WeightsAddUp(outcomes: seq<CheckOutcome>)
    requires forall o :: o in outcomes ==> 1 <= o.weight <= 100
    ensures |outcomes| <= TotalWeight(outcomes) <= 100 * |outcomes|
    ensures (forall o :: o in outcomes ==> o.passed) ==> EarnedWeight(outcomes) == TotalWeight(outcomes)
    ensures (forall o :: o in outcomes ==> !o.passed) ==> EarnedWeight(outcomes) == 0
  {
    if outcomes != [] {
      assert outcomes == [outcomes[0]] + outcomes[1..];
      WeightsAddUp(outcomes[1..]);
    }
  }

  const U32_MAX: nat := 0xFFFF_FFFF

  /** With weights between 1 and 100 the 32-bit sums cannot overflow for up to 42949672 checks;
      a passed task scores 100, a task of which nothing passed scores 0, and the percentage fits
      its byte. */
  lemma ScoreIsSound(outcomes: seq<CheckOutcome>)
    requires forall o :: o in outcomes ==> 1 <= o.weight <= 100
    ensures |outcomes| <= 42_949_672 ==> TotalWeight(outcomes) <= U32_MAX
    ensures FromOutcomes(outcomes).completionPercent <= 100
    ensures FromOutcomes(outcomes).passed ==> FromOutcomes(outcomes).completionPercent == 100
    ensures (forall o :: o in outcomes ==> !o.passed) ==> FromOutcomes(outcomes).completionPercent == 0
  {
    WeightsAddUp(outcomes);
    if outcomes != [] {
      PercentIsNearest(EarnedWeight(outcomes), TotalWeight(outcomes));
    }
  }

  /** A failed task can still show 100: here one check of weight 1 failed beside two of weight
      100. */
  lemma FailedTaskCanShowFull()
    ensures exists outcomes :: !FromOutcomes(outcomes).passed && FromOutcomes(outcomes).completionPercent == 100
  {
    var good := PassOutcome("a", "").(weight := 100);
    var bad := FailOutcome("b", "", "wrong_path");
    var outcomes := [good, good, bad];
    assert outcomes[1..] == [good, bad] && outcomes[1..][1..] == [bad] && [bad][1..] == [];
    assert [bad][0] == bad && EarnedWeight([]) == 0 && TotalWeight([]) == 0;
    assert TotalWeight([bad]) == 1 && EarnedWeight([bad]) == 0;
    assert TotalWeight([good, bad]) == 101 && EarnedWeight([good, bad]) == 100;
    assert TotalWeight(outcomes) == 201 && EarnedWeight(outcomes) == 200;
    assert bad in outcomes;
    assert !FromOutcomes(outcomes).passed && FromOutcomes(outcomes).completionPercent == 100;
  }

  /** A failure is shown exactly when something did not pass, and it is the first plain failure
      whenever there is one: an errored check is shown only if nothing else went wrong. */
  lemma PrimaryFailureIsActionable(outcomes: seq<CheckOutcome>)
    ensures var shown := FromOutcomes(outcomes).primaryFailure;
      && (shown.None? <==> forall o :: o in outcomes ==> o.passed)
      && (shown.Some? ==> shown.value in outcomes && !shown.value.passed)
      && (shown.Some? && shown.value.errored ==> forall o :: o in outcomes ==> o.passed || o.errored)
      && (shown.Some? ==> exists i :: 0 <= i < |outcomes| && outcomes[i] == shown.value
                                      && forall j :: 0 <= j < i ==> !Wrong(outcomes[j], !shown.value.errored))
  {
    var plain, any := FirstWrong(outcomes, true), FirstWrong(outcomes, false);
    if plain.Some? {
      assert Wrong(outcomes[plain.value], true) && outcomes[plain.value] in outcomes;
    } else if any.Some? {
      assert Wrong(outcomes[any.value], false) && !Wrong(outcomes[any.value], true) && outcomes[any.value] in outcomes;
    }
  }
}
