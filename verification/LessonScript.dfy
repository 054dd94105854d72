/** The authoring script's copy of the registry check (scripts/validate-lessons.ts), and how it
    relates to the check that the application and the guest agent run. */
module LessonScript {
  import opened Prelude
  import opened ValidatorRegistry

  /** What the script takes from its JavaScript engine: whether a pattern compiles once its
      inline flags are translated, and the property key a non-string value turns into. */
  datatype Engine = Engine(compiles: string -> bool, key: Json -> string)

  datatype Problem =
    | NestedTooDeep
    | UnknownType(kind: string)
    | DeclaredOnly(kind: string)
    | Missing(kind: string, param: string)
    | NoneOf(kind: string, options: seq<string>)
    | Rejected(kind: string, param: string)
    | BadValue(kind: string, param: string)
    | BadPattern(kind: string, pattern: string)

  /** The names every JavaScript object has from its prototype; indexing and `in` find them
      whether or not the object declares them. */
  const INHERITED: seq<string> := [
    "constructor", "hasOwnProperty", "isPrototypeOf", "propertyIsEnumerable", "toLocaleString",
    "toString", "valueOf", "__proto__", "__defineGetter__", "__defineSetter__",
    "__lookupGetter__", "__lookupSetter__"
  ]

  predicate Inherited(name: string) {
    name in INHERITED
  }

  // ---------------------------------------------------------------- the script's check

  predicate PropertyIn(v: Validator, name: string) {
    name == "type" || Has(v.params, name) || Inherited(name)
  }

  /** `params[name] ?? registry.commonParams[name]`.  An inherited property is a specification
      without a type. */
  function Lookup(reg: Registry, spec: ValidatorSpec, name: string): Option<ParamSpec> {
    if Has(spec.params, name) then Get(spec.params, name)
    else if Inherited(name) then Some(ParamSpec("", false, []))
    else Get(reg.commonParams, name)
  }

  /** A nested entry with a `type` property, read as a validator. */
  function AsValidator(js: Engine, item: Json): (r: Option<Validator>)
    ensures r.Some? ==> FieldsSize(r.value.params) < Size(item)
  {
    if item.Obj? && Has(item.fields, "type") then
      var t: Option<Json> := Get(item.fields, "type");
      Some(Validator(if t.value.Str? then t.value.s else js.key(t.value), WithoutType(item.fields)))
    else None
  }

  predicate IsInteger(value: Json) {
    value.Int? || (value.Float? && value.x.Floor as real == value.x)
  }

  function Number(value: Json): real
    requires value.Int? || value.Float?
  {
    if value.Int? then value.n as real else value.x
  }

  predicate ThreeOrFourDigits(s: string) {
    3 <= |s| <= 4 && OctalDigits(s)
  }

  /** `/^0?o?[0-7]{3,4}$/`. */
  predicate ModePattern(s: string) {
    || ThreeOrFourDigits(s)
    || ("0" <= s && ThreeOrFourDigits(s[1..]))
    || ("o" <= s && ThreeOrFourDigits(s[1..]))
    || ("0o" <= s && ThreeOrFourDigits(s[2..]))
  }

  function MissingProblems(kind: string, specs: seq<Entry<ParamSpec>>, v: Validator): seq<Problem> {
    if specs == [] then []
    else
      (if specs[0].value.required && !PropertyIn(v, specs[0].key) then [Missing(kind, specs[0].key)] else [])
      + MissingProblems(kind, specs[1..], v)
  }

  function OneOfProblems(kind: string, options: seq<string>, v: Validator): seq<Problem> {
    if options == [] || exists name :: name in options && PropertyIn(v, name) then [] else [NoneOf(kind, options)]
  }

  /** The problems `checkValidator` adds, in order. */
  function Problems(js: Engine, reg: Registry, v: Validator, depth: nat): seq<Problem>
    decreases FieldsSize(v.params), 3
  {
    if depth > 3 then [NestedTooDeep]
    else
      match Get(reg.validators, v.kind)
      case None => if Inherited(v.kind) then [DeclaredOnly(v.kind)] else [UnknownType(v.kind)]
      case Some(spec) =>
        if !spec.implemented then [DeclaredOnly(v.kind)]
        else
          MissingProblems(v.kind, spec.params, v) + OneOfProblems(v.kind, spec.requiresOneOf, v)
          + ParamProblems(js, reg, v.kind, spec, v.params, depth)
  }

  function ParamProblems(js: Engine, reg: Registry, kind: string, spec: ValidatorSpec,
                         params: seq<Entry<Json>>, depth: nat): seq<Problem>
    decreases FieldsSize(params), 2
  {
    if params == [] then []
    else ParamProblem(js, reg, kind, spec, params[0], depth) + ParamProblems(js, reg, kind, spec, params[1..], depth)
  }

  function ParamProblem(js: Engine, reg: Registry, kind: string, spec: ValidatorSpec, param: Entry<Json>,
                        depth: nat): seq<Problem>
    decreases Size(param.value), 2
  {
    if param.key == "type" then []
    else
      match Lookup(reg, spec, param.key)
      case None => [Rejected(kind, param.key)]
      case Some(found) => ValueProblems(js, reg, kind, param.key, found, param.value, depth)
  }

  function ValueProblems(js: Engine, reg: Registry, kind: string, name: string, spec: ParamSpec,
                         value: Json, depth: nat): seq<Problem>
    decreases Size(value), 1
  {
    var wrong := [BadValue(kind, name)];
    match spec.paramType
    case "int" => if IsInteger(value) then [] else wrong
    case "port" => if IsInteger(value) && 1.0 <= Number(value) <= 65535.0 then [] else wrong
    case "bool" => if value.Bool? then [] else wrong
    case "list<string>" =>
      if value.Arr? && (forall i :: 0 <= i < |value.items| ==> value.items[i].Str?) then [] else wrong
    case "validators" => if value.Arr? then NestedProblems(js, reg, kind, name, value.items, depth) else wrong
    case "enum" => if value.Str? && value.s in spec.values then [] else wrong
    case "mode" =>
      if value.Str? then (if ModePattern(value.s) then [] else wrong)
      else if value.Int? || value.Float? then []
      else wrong
    case "sha256" => if value.Str? && IsSha256(value.s) then [] else wrong
    case "path" => if value.Str? && value.s != "" then [] else wrong
    case "regex" =>
      if !value.Str? then wrong else if js.compiles(value.s) then [] else [BadPattern(kind, value.s)]
    case _ => if value.Str? then [] else wrong
  }

  function NestedProblems(js: Engine, reg: Registry, kind: string, name: string, items: seq<Json>,
                          depth: nat): seq<Problem>
    decreases ItemsSize(items), 1
  {
    if items == [] then []
    else
      NestedProblem(js, reg, kind, name, items[0], depth) + NestedProblems(js, reg, kind, name, items[1..], depth)
  }

  function NestedProblem(js: Engine, reg: Registry, kind: string, name: string, item: Json, depth: nat): seq<Problem>
    decreases Size(item), 0
  {
    match AsValidator(js, item)
    case None => [BadValue(kind, name)]
    case Some(v) => Problems(js, reg, v, depth + 1)
  }

  /** One step of the loops over parameters and over nested entries. */
  lemma ParamProblemsNext(js: Engine, reg: Registry, kind: string, spec: ValidatorSpec, params: seq<Entry<Json>>,
                          depth: nat, n: nat)
    requires n < |params|
    ensures ParamProblems(js, reg, kind, spec, params[n..], depth)
         == ParamProblem(js, reg, kind, spec, params[n], depth)
             + ParamProblems(js, reg, kind, spec, params[n + 1..], depth)
  {
    hide ParamProblem;
    assert params[n..][1..] == params[n + 1..];
  }

  lemma NestedProblemsNext(js: Engine, reg: Registry, kind: string, name: string, items: seq<Json>, depth: nat, n: nat)
    requires n < |items|
    ensures NestedProblems(js, reg, kind, name, items[n..], depth)
         == NestedProblem(js, reg, kind, name, items[n], depth)
             + NestedProblems(js, reg, kind, name, items[n + 1..], depth)
  {
    hide NestedProblem;
    assert items[n..][1..] == items[n + 1..];
  }

  lemma MissingProblemsNext(kind: string, specs: seq<Entry<ParamSpec>>, v: Validator, n: nat)
    requires n < |specs|
    ensures MissingProblems(kind, specs[n..], v)
         == (if specs[n].value.required && !PropertyIn(v, specs[n].key) then [Missing(kind, specs[n].key)] else [])
            + MissingProblems(kind, specs[n + 1..], v)
  {
    hide PropertyIn;
    assert specs[n..][1..] == specs[n + 1..];
  }

  lemma Regroup(a: seq<Problem>, b: seq<Problem>, c: seq<Problem>)
    ensures a + b + c == a + (b + c)
  {
  }

  // ---------------------------------------------------------------- problems pushed in place

  /** The script's global list. */
  class Report {
    var problems: seq<Problem>

    constructor ()
      ensures problems == []
    {
      problems := [];
    }

    method Fail(problem: Problem)
      modifies this
      ensures problems == old(problems) + [problem]
    {
      problems := problems + [problem];
    }

    method CheckValidator(js: Engine, reg: Registry, v: Validator, depth: nat)
      modifies this
      ensures problems == old(problems) + Problems(js, reg, v, depth)
      decreases FieldsSize(v.params), 3
    {
      if depth > 3 {
        Fail(NestedTooDeep);
        return;
      }
      var found: Option<ValidatorSpec> := Get(reg.validators, v.kind);
      if found.None? && !Inherited(v.kind) {
        Fail(UnknownType(v.kind));
        return;
      }
      if found.None? || !found.value.implemented {
        Fail(DeclaredOnly(v.kind));
        return;
      }
      var spec := found.value;
      assert Problems(js, reg, v, depth)
          == MissingProblems(v.kind, spec.params, v) + OneOfProblems(v.kind, spec.requiresOneOf, v)
             + ParamProblems(js, reg, v.kind, spec, v.params, depth);
      hide Problems, ParamProblems, MissingProblems, PropertyIn, Get, FieldsSize, Has, Inherited;
      CheckRequired(v.kind, spec.params, v);
      CheckOneOf(v.kind, spec.requiresOneOf, v);
      CheckParams(js, reg, v.kind, spec, v.params, depth);
    }

    method CheckRequired(kind: string, specs: seq<Entry<ParamSpec>>, v: Validator)
      modifies this
      ensures problems == old(problems) + MissingProblems(kind, specs, v)
    {
      ghost var all := old(problems) + MissingProblems(kind, specs, v);
      assert specs[0..] == specs && MissingProblems(kind, specs[|specs|..], v) == [];
      for n := 0 to |specs|
        invariant problems + MissingProblems(kind, specs[n..], v) == all
      {
        var entry := specs[n];
        MissingProblemsNext(kind, specs, v, n);
        hide PropertyIn, MissingProblems;
        ghost var first := if entry.value.required && !PropertyIn(v, entry.key) then [Missing(kind, entry.key)] else [];
        Regroup(problems, first, MissingProblems(kind, specs[n + 1..], v));
        if entry.value.required && !PropertyIn(v, entry.key) {
          Fail(Missing(kind, entry.key));
        }
      }
    }

    method CheckOneOf(kind: string, options: seq<string>, v: Validator)
      modifies this
      ensures problems == old(problems) + OneOfProblems(kind, options, v)
    {
      if options != [] && !(exists name :: name in options && PropertyIn(v, name)) {
        Fail(NoneOf(kind, options));
      }
    }

    method CheckParams(js: Engine, reg: Registry, kind: string, spec: ValidatorSpec, params: seq<Entry<Json>>,
                       depth: nat)
      modifies this
      ensures problems == old(problems) + ParamProblems(js, reg, kind, spec, params, depth)
      decreases FieldsSize(params), 2
    {
      ghost var all := old(problems) + ParamProblems(js, reg, kind, spec, params, depth);
      assert ParamProblems(js, reg, kind, spec, [], depth) == [];
      hide ParamProblems, ParamProblem, ValueProblems, FieldsSize, Size;
      assert params[0..] == params && params[|params|..] == [];
      for n := 0 to |params|
        invariant problems + ParamProblems(js, reg, kind, spec, params[n..], depth) == all
      {
        ParamProblemsNext(js, reg, kind, spec, params, depth, n);
        ghost var before := problems;
        CheckParam(js, reg, kind, spec, params[n], depth);
        Regroup(before, ParamProblem(js, reg, kind, spec, params[n], depth),
                ParamProblems(js, reg, kind, spec, params[n + 1..], depth));
      }
    }

    method CheckParam(js: Engine, reg: Registry, kind: string, spec: ValidatorSpec, param: Entry<Json>, depth: nat)
      modifies this
      ensures problems == old(problems) + ParamProblem(js, reg, kind, spec, param, depth)
      decreases Size(param.value), 2
    {
      hide ValueProblems, FieldsSize, Size;
      if param.key != "type" {
        var found := Lookup(reg, spec, param.key);
        if found.None? {
          Fail(Rejected(kind, param.key));
        } else {
          CheckParamValue(js, reg, kind, param.key, found.value, param.value, depth);
        }
      }
    }

    method CheckParamValue(js: Engine, reg: Registry, kind: string, name: string, spec: ParamSpec, value: Json,
                           depth: nat)
      modifies this
      ensures problems == old(problems) + ValueProblems(js, reg, kind, name, spec, value, depth)
      decreases Size(value), 1
    {
      var wrong := BadValue(kind, name);
      match spec.paramType {
        case "int" => if !IsInteger(value) { Fail(wrong); }
        case "port" =>
          if !IsInteger(value) || Number(value) < 1.0 || Number(value) > 65535.0 { Fail(wrong); }
        case "bool" => if !value.Bool? { Fail(wrong); }
        case "list<string>" =>
          if !value.Arr? || exists i :: 0 <= i < |value.items| && !value.items[i].Str? { Fail(wrong); }
        case "validators" =>
          if !value.Arr? { Fail(wrong); } else { CheckNested(js, reg, kind, name, value.items, depth); }
        case "enum" => if !value.Str? || value.s !in spec.values { Fail(wrong); }
        case "mode" =>
          if value.Str? {
            if !ModePattern(value.s) { Fail(wrong); }
          } else if !value.Int? && !value.Float? {
            Fail(wrong);
          }
        case "sha256" => if !value.Str? || !IsSha256(value.s) { Fail(wrong); }
        case "path" => if !value.Str? || |value.s| == 0 { Fail(wrong); }
        case "regex" =>
          if !value.Str? { Fail(wrong); } else if !js.compiles(value.s) { Fail(BadPattern(kind, value.s)); }
        case _ => if !value.Str? { Fail(wrong); }
      }
    }

    method CheckNested(js: Engine, reg: Registry, kind: string, name: string, items: seq<Json>, depth: nat)
      modifies this
      ensures problems == old(problems) + NestedProblems(js, reg, kind, name, items, depth)
      decreases ItemsSize(items), 1
    {
      ghost var all := old(problems) + NestedProblems(js, reg, kind, name, items, depth);
      assert NestedProblems(js, reg, kind, name, [], depth) == [];
      hide NestedProblems, NestedProblem, Problems, ItemsSize, Size, FieldsSize, AsValidator;
      assert items[0..] == items && items[|items|..] == [];
      for n := 0 to |items|
        invariant problems + NestedProblems(js, reg, kind, name, items[n..], depth) == all
      {
        NestedProblemsNext(js, reg, kind, name, items, depth, n);
        ghost var before := problems;
        CheckNestedOne(js, reg, kind, name, items[n], depth);
        Regroup(before, NestedProblem(js, reg, kind, name, items[n], depth),
                NestedProblems(js, reg, kind, name, items[n + 1..], depth));
      }
    }

    method CheckNestedOne(js: Engine, reg: Registry, kind: string, name: string, item: Json, depth: nat)
      modifies this
      ensures problems == old(problems) + NestedProblem(js, reg, kind, name, item, depth)
      decreases Size(item), 0
    {
      hide Problems, Size, FieldsSize;
      var nested := AsValidator(js, item);
      if nested.None? {
        Fail(BadValue(kind, name));
      } else {
        CheckValidator(js, reg, nested.value, depth + 1);
      }
    }
  }

  // ---------------------------------------------------------------- the two checks agree

  predicate Usual(name: string) {
    name != "type" && !Inherited(name)
  }

  /** The registry itself uses no name that JavaScript objects inherit, and no parameter called
      `type`. */
  ghost predicate Plain(reg: Registry) {
    && (forall e :: e in reg.commonParams ==> Usual(e.key))
    && forall v :: v in reg.validators ==>
         && (forall e :: e in v.value.params ==> Usual(e.key))
         && forall name :: name in v.value.requiresOneOf ==> Usual(name)
  }

  /** Where the two value checks agree: whole numbers written as 64-bit integers, not as `-0`, octal
      modes without a bare leading `o`, and string types on nested validators. */
  ghost predicate ValueAgrees(spec: ParamSpec, value: Json) {
    match spec.paramType
    case "int" => AsI64(value).Some?
    case "port" => value.Int?
    case "mode" => value.Str? && value.s != "" ==> value.s[0] != 'o'
    case "validators" =>
      value.Arr? ==> forall i :: 0 <= i < |value.items| ==> FromJson(value.items[i]).Some?
    case _ => true
  }

  /** What an author can look for in one validator: no parameter whose name every JavaScript
      object has, and only values of the agreeing kinds. */
  ghost predicate Agreeable(reg: Registry, v: Validator) {
    var spec: Option<ValidatorSpec> := Get(reg.validators, v.kind);
    spec.Some? ==>
      forall p :: p in v.params ==>
        && !Inherited(p.key)
        && (SpecOf(reg, spec.value, p.key).Some? ==> ValueAgrees(SpecOf(reg, spec.value, p.key).value, p.value))
  }

  lemma {:induction false} OctalBound(s: string, bound: nat)
    requires OctalDigits(s) && |s| <= 5
    requires bound == (if |s| == 0 then 1 else if |s| == 1 then 8 else if |s| == 2 then 64
                       else if |s| == 3 then 512 else if |s| == 4 then 4096 else 32768)
    ensures OctalValue(s) < bound
    decreases |s|
  {
    if s != "" {
      OctalBound(s[..|s| - 1], bound / 8);
    }
  }

  /** Of the modes the script lets through, the Rust parser rejects exactly those that start
      with a bare `o`. */
  lemma ModesAgree(s: string)
    requires ModePattern(s)
    ensures ParsesAsOctal(TrimOctalPrefix(s)) <==> s[0] != 'o'
  {
    hide ParsesAsOctal, TrimOctalPrefix, OctalDigits;
    if "o" <= s && ThreeOrFourDigits(s[1..]) {
      BareOIsRefused(s);
    } else if "0o" <= s {
      assert ThreeOrFourDigits(s[2..]) by { NoDigitO(s); }
      PrefixIsTrimmed(s);
      OctalIsParsed(s[2..]);
    } else {
      if !ThreeOrFourDigits(s) {
        LeadingZero(s);
      }
      OctalIsParsed(s);
    }
  }

  lemma BareOIsRefused(s: string)
    requires "o" <= s
    ensures s[0] == 'o' && !ParsesAsOctal(TrimOctalPrefix(s))
  {
    assert s[0] == 'o';
    assert TrimOctalPrefix(s) == s;
  }

  lemma NoDigitO(s: string)
    requires "0o" <= s
    ensures s[0] == '0' && !ThreeOrFourDigits(s) && !ThreeOrFourDigits(s[1..])
  {
    assert s[1] == 'o' && s[1..][0] == 'o';
  }

  lemma NotPrefixed(s: string)
    requires OctalDigits(s)
    ensures !("0o" <= s)
  {
    assert |s| >= 2 ==> s[1] != "0o"[1];
  }

  lemma PrefixIsTrimmed(s: string)
    requires "0o" <= s && OctalDigits(s[2..])
    ensures TrimOctalPrefix(s) == s[2..]
  {
    NotPrefixed(s[2..]);
  }

  lemma LeadingZero(s: string)
    requires "0" <= s && ThreeOrFourDigits(s[1..])
    ensures OctalDigits(s) && 4 <= |s| <= 5
  {
    assert s[0] == '0';
    assert forall i :: 0 < i < |s| ==> s[i] == s[1..][i - 1];
  }

  lemma OctalIsParsed(s: string)
    requires OctalDigits(s) && 3 <= |s| <= 5
    ensures ParsesAsOctal(TrimOctalPrefix(s)) && s[0] != 'o' && ParsesAsOctal(s)
  {
    NotPrefixed(s);
    OctalBound(s, if |s| == 3 then 512 else if |s| == 4 then 4096 else 32768);
  }

  lemma ValuesAgree(js: Engine, reg: Registry, kind: string, name: string, spec: ParamSpec, value: Json, depth: nat)
    requires ValueProblems(js, reg, kind, name, spec, value, depth) == []
    ensures ValueOk(spec, value) <==> ValueAgrees(spec, value)
  {
    hide NestedProblems, ModePattern, ParsesAsOctal, TrimOctalPrefix, FromJson;
    if spec.paramType == "mode" && value.Str? {
      ModesAgree(value.s);
      ModeIsNotEmpty(value.s);
    }
  }

  lemma ModeIsNotEmpty(s: string)
    requires ModePattern(s)
    ensures s != ""
  {
  }

  lemma {:induction false} ParamsHaveNoProblem(js: Engine, reg: Registry, kind: string, spec: ValidatorSpec,
                                               params: seq<Entry<Json>>, depth: nat)
    requires ParamProblems(js, reg, kind, spec, params, depth) == []
    ensures forall p :: p in params ==> ParamProblem(js, reg, kind, spec, p, depth) == []
    decreases |params|
  {
    hide ParamProblem;
    if params != [] {
      assert params == [params[0]] + params[1..];
      ParamsHaveNoProblem(js, reg, kind, spec, params[1..], depth);
    }
  }

  lemma {:induction false} RequiredArePresent(kind: string, specs: seq<Entry<ParamSpec>>, v: Validator)
    requires MissingProblems(kind, specs, v) == []
    requires forall e :: e in specs ==> Usual(e.key)
    ensures forall e :: e in specs && e.value.required ==> Has(v.params, e.key)
  {
    hide Inherited;
    if specs != [] {
      assert specs == [specs[0]] + specs[1..];
      RequiredArePresent(kind, specs[1..], v);
    }
  }

  lemma GetIsIn<V>(m: seq<Entry<V>>, key: string)
    requires Has(m, key)
    ensures Entry(key, Get(m, key).value) in m
  {
    if m[0].key == key {
      assert m[0] in m;
    } else {
      assert Has(m[1..], key);
      GetIsIn(m[1..], key);
    }
  }

  /** Where the script reports nothing, one validator is fine for Rust exactly when it is
      agreeable. */
  lemma LocalChecksAgree(js: Engine, reg: Registry, v: Validator, depth: nat)
    requires Plain(reg) && Problems(js, reg, v, depth) == []
    requires forall p :: p in v.params ==> p.key != "type"
    ensures LocallyOk(reg, v) <==> Agreeable(reg, v)
  {
    var found: Option<ValidatorSpec> := Get(reg.validators, v.kind);
    GetIsIn(reg.validators, v.kind);
    var spec := found.value;
    RequiredArePresent(v.kind, spec.params, v);
    ParamsHaveNoProblem(js, reg, v.kind, spec, v.params, depth);
    hide Problems, ParamProblems;
    forall p | p in v.params
      ensures (SpecOf(reg, spec, p.key).Some? && ValueOk(SpecOf(reg, spec, p.key).value, p.value))
         <==> (!Inherited(p.key)
             && (SpecOf(reg, spec, p.key).Some? ==> ValueAgrees(SpecOf(reg, spec, p.key).value, p.value)))
    {
      ParamAgrees(js, reg, v.kind, spec, p, depth);
    }
  }

  lemma ParamAgrees(js: Engine, reg: Registry, kind: string, spec: ValidatorSpec, p: Entry<Json>, depth: nat)
    requires ParamProblem(js, reg, kind, spec, p, depth) == [] && p.key != "type"
    requires forall e :: e in spec.params ==> Usual(e.key)
    requires forall e :: e in reg.commonParams ==> Usual(e.key)
    ensures (SpecOf(reg, spec, p.key).Some? && ValueOk(SpecOf(reg, spec, p.key).value, p.value))
       <==> (!Inherited(p.key)
           && (SpecOf(reg, spec, p.key).Some? ==> ValueAgrees(SpecOf(reg, spec, p.key).value, p.value)))
  {
    hide ValueOk, ValueAgrees, ValueProblems, Inherited;
    if Inherited(p.key) {
      assert !Has(spec.params, p.key) && !Has(reg.commonParams, p.key);
    } else {
      var s := SpecOf(reg, spec, p.key);
      ValuesAgree(js, reg, kind, p.key, s.value, p.value, depth);
    }
  }

  lemma {:induction false} NestedHaveNoProblem(js: Engine, reg: Registry, kind: string, name: string,
                                               items: seq<Json>, depth: nat)
    requires NestedProblems(js, reg, kind, name, items, depth) == []
    ensures forall c :: c in ReadAll(items) ==> NoProblem(js, reg, c, depth + 1)
    decreases |items|
  {
    hide Problems;
    if items != [] {
      NestedHaveNoProblem(js, reg, kind, name, items[1..], depth);
    }
  }

  ghost predicate NoProblem(js: Engine, reg: Registry, c: Validator, depth: nat) {
    Problems(js, reg, c, depth) == [] && forall p :: p in c.params ==> p.key != "type"
  }

  lemma {:induction false} ChildrenHaveNoProblem(js: Engine, reg: Registry, kind: string, spec: ValidatorSpec,
                                                 params: seq<Entry<Json>>, depth: nat)
    requires ParamProblems(js, reg, kind, spec, params, depth) == []
    requires forall p :: p in params ==> p.key != "type" && !Inherited(p.key)
    ensures forall c :: c in Children(reg, spec, params) ==> NoProblem(js, reg, c, depth + 1)
    decreases |params|
  {
    hide NoProblem, NestedProblems, Inherited;
    if params != [] {
      var p := params[0];
      assert params == [p] + params[1..];
      ChildrenHaveNoProblem(js, reg, kind, spec, params[1..], depth);
      var s := SpecOf(reg, spec, p.key);
      if s.Some? && s.value.paramType == "validators" && p.value.Arr? {
        assert ParamProblem(js, reg, kind, spec, p, depth) == [];
        assert Lookup(reg, spec, p.key) == s;
        assert ValueProblems(js, reg, kind, p.key, s.value, p.value, depth)
            == NestedProblems(js, reg, kind, p.key, p.value.items, depth);
        NestedHaveNoProblem(js, reg, kind, p.key, p.value.items, depth);
      }
    }
  }

  /** The twin law.  When the script reports nothing for a validator, the check that the
      application and the agent run accepts it exactly if every validator in it, at every depth,
      is agreeable. */
  lemma {:induction false} ScriptImpliesRegistryCheck(js: Engine, reg: Registry, v: Validator, depth: nat)
    requires Plain(reg) && NoProblem(js, reg, v, depth)
    ensures Check(reg, v).Ok? <==> forall u :: u in Tree(reg, v) ==> Agreeable(reg, u)
    decreases FieldsSize(v.params)
  {
    CheckIsWellFormedness(reg, v);
    TreesAgree(js, reg, v, depth);
  }

  lemma {:induction false} TreesAgree(js: Engine, reg: Registry, v: Validator, depth: nat)
    requires Plain(reg) && NoProblem(js, reg, v, depth)
    ensures WellFormed(reg, v) <==> forall u :: u in Tree(reg, v) ==> Agreeable(reg, u)
    decreases FieldsSize(v.params)
  {
    LocalChecksAgree(js, reg, v, depth);
    WellFormedUnfolds(reg, v);
    AgreeableUnfolds(reg, v);
    var found: Option<ValidatorSpec> := Get(reg.validators, v.kind);
    if Agreeable(reg, v) {
      ChildrenHaveNoProblem(js, reg, v.kind, found.value, v.params, depth);
      forall c | c in ChildrenOf(reg, v)
        ensures WellFormed(reg, c) <==> forall u :: u in Tree(reg, c) ==> Agreeable(reg, u)
      {
        TreesAgree(js, reg, c, depth + 1);
      }
    }
  }

  lemma AgreeableUnfolds(reg: Registry, v: Validator)
    ensures (forall u :: u in Tree(reg, v) ==> Agreeable(reg, u))
       <==> && Agreeable(reg, v)
            && forall c :: c in ChildrenOf(reg, v) ==> forall u :: u in Tree(reg, c) ==> Agreeable(reg, u)
  {
    hide Tree, ChildrenOf, Agreeable;
    forall u ensures u in Tree(reg, v) <==> u == v || exists c :: c in ChildrenOf(reg, v) && u in Tree(reg, c) {
      TreeMembers(reg, v, u);
    }
  }

  // ---------------------------------------------------------------- when the script is silent

  /** `value` is the number `n`, however it is written. */
  ghost predicate IsNumber(value: Json, n: int) {
    value == Int(n) || value == Float(n as real)
  }

  /** An optional `0`, an optional `o`, and three or four octal digits. */
  ghost predicate ScriptMode(s: string) {
    exists prefix :: prefix in ["", "0", "o", "0o"] && prefix <= s && ThreeOrFourOctal(s[|prefix|..])
  }

  ghost predicate ThreeOrFourOctal(s: string) {
    3 <= |s| <= 4 && forall c :: c in s ==> c in "01234567"
  }

  /** What the script takes for a value, nested validators aside. */
  ghost predicate FitsScript(js: Engine, spec: ParamSpec, value: Json) {
    match spec.paramType
    case "int" => exists n :: IsNumber(value, n)
    case "port" => exists n :: IsNumber(value, n) && 1 <= n <= 65535
    case "mode" => value.Int? || value.Float? || (value.Str? && ScriptMode(value.s))
    case "validators" => value.Arr?
    case "regex" => value.Str? && js.compiles(value.s)
    case _ => ValueOk(spec, value)
  }

  /** A validator that the script takes: nested at most three deep, declared and implemented, with what is
      required, and with values that fit what is looked up for their names. */
  ghost predicate Taken(js: Engine, reg: Registry, v: Validator, depth: nat)
    decreases FieldsSize(v.params), 1
  {
    depth <= 3 &&
    match Get(reg.validators, v.kind)
    case None => false
    case Some(spec) =>
      && spec.implemented
      && (forall e :: e in spec.params && e.value.required ==> PropertyIn(v, e.key))
      && (spec.requiresOneOf == [] || exists name :: name in spec.requiresOneOf && PropertyIn(v, name))
      && forall p :: p in v.params && p.key != "type" ==>
           (EntryIsSmaller(v.params, p); TakenParam(js, reg, spec, p, depth))
  }

  ghost predicate TakenParam(js: Engine, reg: Registry, spec: ValidatorSpec, p: Entry<Json>, depth: nat)
    decreases Size(p.value), 2
  {
    var found := Lookup(reg, spec, p.key);
    && found.Some? && FitsScript(js, found.value, p.value)
    && (found.value.paramType == "validators" ==>
        forall item :: item in p.value.items ==> (ItemIsSmaller(p.value.items, item); TakenItem(js, reg, item, depth)))
  }

  ghost predicate TakenItem(js: Engine, reg: Registry, item: Json, depth: nat)
    decreases Size(item), 0
  {
    AsValidator(js, item).Some? && Taken(js, reg, AsValidator(js, item).value, depth + 1)
  }

  lemma EntryIsSmaller(params: seq<Entry<Json>>, p: Entry<Json>)
    requires p in params
    ensures Size(p.value) < FieldsSize(params)
  {
    var i :| 0 <= i < |params| && params[i] == p;
  }

  lemma ItemIsSmaller(items: seq<Json>, item: Json)
    requires item in items
    ensures Size(item) < Size(Arr(items))
  {
    var i :| 0 <= i < |items| && items[i] == item;
  }

  /** The script reports nothing exactly for the validators that it takes, at every depth. */
  lemma {:induction false} SilentExactlyWhenTaken(js: Engine, reg: Registry, v: Validator, depth: nat)
    ensures Problems(js, reg, v, depth) == [] <==> Taken(js, reg, v, depth)
    decreases FieldsSize(v.params), 3
  {
    hide ParamProblems, TakenParam, PropertyIn, MissingProblems, FieldsSize;
    if depth <= 3 && Get(reg.validators, v.kind).Some? && Get(reg.validators, v.kind).value.implemented {
      var spec := Get(reg.validators, v.kind).value;
      NoneMissing(v.kind, spec.params, v);
      forall p | p in v.params && p.key != "type"
        ensures ParamProblem(js, reg, v.kind, spec, p, depth) == [] <==> TakenParam(js, reg, spec, p, depth)
      {
        EntryIsSmaller(v.params, p);
        ParamSilent(js, reg, v.kind, spec, p, depth);
      }
      ParamsSilent(js, reg, v.kind, spec, v.params, depth);
    }
  }

  lemma {:induction false} NoneMissing(kind: string, specs: seq<Entry<ParamSpec>>, v: Validator)
    ensures MissingProblems(kind, specs, v) == [] <==>
              forall e :: e in specs && e.value.required ==> PropertyIn(v, e.key)
  {
    hide PropertyIn;
    if specs != [] {
      assert specs == [specs[0]] + specs[1..];
      NoneMissing(kind, specs[1..], v);
    }
  }

  lemma {:induction false} ParamsSilent(js: Engine, reg: Registry, kind: string, spec: ValidatorSpec,
                                        params: seq<Entry<Json>>, depth: nat)
    ensures ParamProblems(js, reg, kind, spec, params, depth) == [] <==>
              forall p :: p in params && p.key != "type" ==> ParamProblem(js, reg, kind, spec, p, depth) == []
    decreases |params|
  {
    if params != [] {
      TypeIsSilent(js, reg, kind, spec, params[0], depth);
      hide ParamProblem;
      assert params == [params[0]] + params[1..];
      ParamsSilent(js, reg, kind, spec, params[1..], depth);
    }
  }

  lemma TypeIsSilent(js: Engine, reg: Registry, kind: string, spec: ValidatorSpec, p: Entry<Json>, depth: nat)
    ensures p.key == "type" ==> ParamProblem(js, reg, kind, spec, p, depth) == []
  {
    hide ValueProblems;
  }

  lemma {:induction false} ParamSilent(js: Engine, reg: Registry, kind: string, spec: ValidatorSpec, p: Entry<Json>,
                                       depth: nat)
    requires p.key != "type"
    ensures ParamProblem(js, reg, kind, spec, p, depth) == [] <==> TakenParam(js, reg, spec, p, depth)
    decreases Size(p.value), 4
  {
    hide ValueProblems, FitsScript, Lookup, NestedProblems, TakenItem;
    var found := Lookup(reg, spec, p.key);
    if found.Some? {
      ValueClaimed(js, reg, kind, p.key, found.value, p.value, depth);
      if p.value.Arr? {
        ItemsSilent(js, reg, kind, p.key, p.value.items, depth);
      }
    }
  }

  lemma {:induction false} ItemsSilent(js: Engine, reg: Registry, kind: string, name: string, items: seq<Json>,
                                       depth: nat)
    ensures NestedProblems(js, reg, kind, name, items, depth) == [] <==>
              forall item :: item in items ==> TakenItem(js, reg, item, depth)
    decreases ItemsSize(items), 2
  {
    hide Problems, Taken, TakenItem, NestedProblem, AsValidator;
    if items != [] {
      assert items == [items[0]] + items[1..];
      ItemSilent(js, reg, kind, name, items[0], depth);
      ItemsSilent(js, reg, kind, name, items[1..], depth);
      assert NestedProblems(js, reg, kind, name, items, depth)
          == NestedProblem(js, reg, kind, name, items[0], depth)
             + NestedProblems(js, reg, kind, name, items[1..], depth);
    }
  }

  lemma {:induction false} ItemSilent(js: Engine, reg: Registry, kind: string, name: string, item: Json, depth: nat)
    ensures NestedProblem(js, reg, kind, name, item, depth) == [] <==> TakenItem(js, reg, item, depth)
    decreases Size(item), 1
  {
    hide Problems, Taken, AsValidator;
    if AsValidator(js, item).Some? {
      SilentExactlyWhenTaken(js, reg, AsValidator(js, item).value, depth + 1);
    }
  }

  lemma NumbersAreWhole(value: Json)
    ensures (exists n :: IsNumber(value, n)) <==> IsInteger(value)
    ensures (exists n :: IsNumber(value, n) && 1 <= n <= 65535) <==>
              IsInteger(value) && 1.0 <= Number(value) <= 65535.0
  {
    if value.Int? {
      assert IsNumber(value, value.n);
    } else if value.Float? && value.x.Floor as real == value.x {
      assert IsNumber(value, value.x.Floor);
    }
  }

  lemma ModePatternIsScriptMode(s: string)
    ensures ModePattern(s) <==> ScriptMode(s)
  {
    hide ThreeOrFourDigits, ThreeOrFourOctal;
    forall t ensures ThreeOrFourDigits(t) <==> ThreeOrFourOctal(t) {
      SameDigits(t);
    }
    assert s[0..] == s;
    var prefixes := ["", "0", "o", "0o"];
    assert prefixes[0] in prefixes && prefixes[1] in prefixes && prefixes[2] in prefixes && prefixes[3] in prefixes;
  }

  lemma SameDigits(t: string)
    ensures ThreeOrFourDigits(t) <==> ThreeOrFourOctal(t)
  {
    assert forall c :: '0' <= c <= '7' <==> c in "01234567";
    assert forall i :: 0 <= i < |t| ==> t[i] in t;
  }

  /** What the script says of `v`: each thing that is wrong with it, or with a validator nested in it, by name. */
  ghost predicate Claimed(js: Engine, reg: Registry, v: Validator, depth: nat, x: Problem)
    decreases FieldsSize(v.params), 1
  {
    if depth > 3 then x == NestedTooDeep
    else
      match Get(reg.validators, v.kind)
      case None => x == if Inherited(v.kind) then DeclaredOnly(v.kind) else UnknownType(v.kind)
      case Some(spec) =>
        if !spec.implemented then x == DeclaredOnly(v.kind)
        else
          || (exists e :: e in spec.params && e.value.required && !PropertyIn(v, e.key) && x == Missing(v.kind, e.key))
          || (x == NoneOf(v.kind, spec.requiresOneOf) && spec.requiresOneOf != []
              && forall name :: name in spec.requiresOneOf ==> !PropertyIn(v, name))
          || exists p :: p in v.params && p.key != "type"
                         && (EntryIsSmaller(v.params, p); ClaimedParam(js, reg, v.kind, spec, p, depth, x))
  }

  ghost predicate ClaimedParam(js: Engine, reg: Registry, kind: string, spec: ValidatorSpec, p: Entry<Json>,
                               depth: nat, x: Problem)
    decreases Size(p.value), 2
  {
    match Lookup(reg, spec, p.key)
    case None => x == Rejected(kind, p.key)
    case Some(found) =>
      if FitsScript(js, found, p.value) then
        found.paramType == "validators" &&
        exists item :: item in p.value.items
                       && (ItemIsSmaller(p.value.items, item); ClaimedItem(js, reg, kind, p.key, item, depth, x))
      else
        x == if found.paramType == "regex" && p.value.Str? then BadPattern(kind, p.value.s) else BadValue(kind, p.key)
  }

  ghost predicate ClaimedItem(js: Engine, reg: Registry, kind: string, name: string, item: Json, depth: nat,
                              x: Problem)
    decreases Size(item), 0
  {
    match AsValidator(js, item)
    case None => x == BadValue(kind, name)
    case Some(v) => Claimed(js, reg, v, depth + 1, x)
  }

  /** The script reports exactly that. */
  lemma {:induction false} ReportedExactlyWhenClaimed(js: Engine, reg: Registry, v: Validator, depth: nat, x: Problem)
    ensures x in Problems(js, reg, v, depth) <==> Claimed(js, reg, v, depth, x)
    decreases FieldsSize(v.params), 3
  {
    hide ParamProblems, ClaimedParam, PropertyIn, MissingProblems, FieldsSize, Inherited;
    if depth <= 3 && Get(reg.validators, v.kind).Some? && Get(reg.validators, v.kind).value.implemented {
      var spec := Get(reg.validators, v.kind).value;
      MissingClaimed(v.kind, spec.params, v, x);
      forall p | p in v.params && p.key != "type"
        ensures x in ParamProblem(js, reg, v.kind, spec, p, depth) <==>
                  ClaimedParam(js, reg, v.kind, spec, p, depth, x)
      {
        EntryIsSmaller(v.params, p);
        ParamClaimed(js, reg, v.kind, spec, p, depth, x);
      }
      ParamsClaimed(js, reg, v.kind, spec, v.params, depth, x);
      hide ParamProblem;
    }
  }

  lemma {:induction false} MissingClaimed(kind: string, specs: seq<Entry<ParamSpec>>, v: Validator, x: Problem)
    ensures x in MissingProblems(kind, specs, v) <==>
              exists e :: e in specs && e.value.required && !PropertyIn(v, e.key) && x == Missing(kind, e.key)
  {
    hide PropertyIn;
    if specs != [] {
      assert specs == [specs[0]] + specs[1..];
      MissingClaimed(kind, specs[1..], v, x);
    }
  }

  lemma {:induction false} ParamsClaimed(js: Engine, reg: Registry, kind: string, spec: ValidatorSpec,
                                         params: seq<Entry<Json>>, depth: nat, x: Problem)
    ensures x in ParamProblems(js, reg, kind, spec, params, depth) <==>
              exists p :: p in params && p.key != "type" && x in ParamProblem(js, reg, kind, spec, p, depth)
    decreases |params|
  {
    hide ParamProblem;
    if params != [] {
      TypeIsSilent(js, reg, kind, spec, params[0], depth);
      assert params == [params[0]] + params[1..];
      ParamsClaimed(js, reg, kind, spec, params[1..], depth, x);
    }
  }

  lemma {:induction false} ParamClaimed(js: Engine, reg: Registry, kind: string, spec: ValidatorSpec, p: Entry<Json>,
                                        depth: nat, x: Problem)
    requires p.key != "type"
    ensures x in ParamProblem(js, reg, kind, spec, p, depth) <==> ClaimedParam(js, reg, kind, spec, p, depth, x)
    decreases Size(p.value), 4
  {
    hide ValueProblems, FitsScript, Lookup, NestedProblems, ClaimedItem;
    var found := Lookup(reg, spec, p.key);
    if found.Some? {
      ValueClaimed(js, reg, kind, p.key, found.value, p.value, depth);
      if p.value.Arr? {
        ItemsClaimed(js, reg, kind, p.key, p.value.items, depth, x);
      }
    }
  }

  lemma {:induction false} ItemsClaimed(js: Engine, reg: Registry, kind: string, name: string, items: seq<Json>,
                                        depth: nat, x: Problem)
    ensures x in NestedProblems(js, reg, kind, name, items, depth) <==>
              exists item :: item in items && ClaimedItem(js, reg, kind, name, item, depth, x)
    decreases ItemsSize(items), 2
  {
    hide Problems, Claimed, ClaimedItem, NestedProblem, AsValidator;
    if items != [] {
      assert items == [items[0]] + items[1..];
      ItemClaimed(js, reg, kind, name, items[0], depth, x);
      ItemsClaimed(js, reg, kind, name, items[1..], depth, x);
      assert NestedProblems(js, reg, kind, name, items, depth)
          == NestedProblem(js, reg, kind, name, items[0], depth)
             + NestedProblems(js, reg, kind, name, items[1..], depth);
    }
  }

  lemma {:induction false} ItemClaimed(js: Engine, reg: Registry, kind: string, name: string, item: Json, depth: nat,
                                       x: Problem)
    ensures x in NestedProblem(js, reg, kind, name, item, depth) <==> ClaimedItem(js, reg, kind, name, item, depth, x)
    decreases Size(item), 1
  {
    hide Problems, Claimed, AsValidator;
    if AsValidator(js, item).Some? {
      ReportedExactlyWhenClaimed(js, reg, AsValidator(js, item).value, depth + 1, x);
    }
  }

  /** One value, its nested validators apart. */
  lemma ValueClaimed(js: Engine, reg: Registry, kind: string, name: string, spec: ParamSpec, value: Json, depth: nat)
    ensures ValueProblems(js, reg, kind, name, spec, value, depth)
         == if !FitsScript(js, spec, value) then
              [if spec.paramType == "regex" && value.Str? then BadPattern(kind, value.s) else BadValue(kind, name)]
            else if spec.paramType == "validators" then NestedProblems(js, reg, kind, name, value.items, depth)
            else []
    ensures FitsScript(js, spec, value) && spec.paramType == "validators" ==> value.Arr?
  {
    hide NestedProblems, IsNumber, ScriptMode, ModePattern, IsInteger, Number;
    NumbersAreWhole(value);
    if value.Str? {
      ModePatternIsScriptMode(value.s);
    }
  }

  /** What the script wants beyond the registry check of one validator: patterns that compile in its engine, and
      modes in its own shape. */
  ghost predicate ScriptDemands(js: Engine, reg: Registry, v: Validator) {
    var spec: Option<ValidatorSpec> := Get(reg.validators, v.kind);
    spec.Some? ==> forall p :: p in v.params && SpecOf(reg, spec.value, p.key).Some? ==>
      ScriptDemandsValue(js, SpecOf(reg, spec.value, p.key).value, p.value)
  }

  ghost predicate ScriptDemandsValue(js: Engine, spec: ParamSpec, value: Json) {
    value.Str? ==>
      && (spec.paramType == "regex" ==> js.compiles(value.s))
      && (spec.paramType == "mode" ==> ScriptMode(value.s))
  }

  ghost predicate NestedAtMost(reg: Registry, v: Validator, n: nat)
    decreases n
  {
    forall c :: c in ChildrenOf(reg, v) ==> n > 0 && NestedAtMost(reg, c, n - 1)
  }

  ghost predicate NoTypeParam(v: Validator) {
    forall p :: p in v.params ==> p.key != "type"
  }

  /** What the registry check accepts, the script takes, if it is nested at most three deep and has patterns and
      modes that the script understands. */
  lemma {:induction false} AcceptedIsTaken(js: Engine, reg: Registry, v: Validator, depth: nat)
    requires Plain(reg) && WellFormed(reg, v) && NoTypeParam(v)
    requires depth <= 3 && NestedAtMost(reg, v, 3 - depth)
    requires forall u :: u in Tree(reg, v) ==> ScriptDemands(js, reg, u)
    ensures Taken(js, reg, v, depth)
    decreases FieldsSize(v.params), 1
  {
    hide WellFormed, Tree, TakenParam, Inherited, ScriptDemands, NestedAtMost, ChildrenOf, FieldsSize;
    WellFormedUnfolds(reg, v);
    var spec := Get(reg.validators, v.kind).value;
    GetIsIn(reg.validators, v.kind);
    TreeMembers(reg, v, v);
    forall p | p in v.params && p.key != "type" ensures TakenParam(js, reg, spec, p, depth) {
      EntryIsSmaller(v.params, p);
      AcceptedParam(js, reg, v, spec, p, depth);
    }
  }

  lemma {:induction false} AcceptedParam(js: Engine, reg: Registry, v: Validator, spec: ValidatorSpec,
                                         p: Entry<Json>, depth: nat)
    requires Plain(reg) && WellFormed(reg, v) && p in v.params && p.key != "type"
    requires Get(reg.validators, v.kind) == Some(spec)
    requires depth <= 3 && NestedAtMost(reg, v, 3 - depth)
    requires forall u :: u in Tree(reg, v) ==> ScriptDemands(js, reg, u)
    ensures TakenParam(js, reg, spec, p, depth)
    decreases Size(p.value), 5
  {
    hide WellFormed, Tree, Inherited, ValueOk, FitsScript, TakenItem, Size, Plain, NestedAtMost, ChildrenOf;
    WellFormedUnfolds(reg, v);
    TreeMembers(reg, v, v);
    var found := SpecOf(reg, spec, p.key);
    UsualLookup(reg, v.kind, spec, p.key);
    AcceptedValue(js, found.value, p.value);
    if found.value.paramType == "validators" {
      forall item | item in p.value.items ensures TakenItem(js, reg, item, depth) {
        ItemIsSmaller(p.value.items, item);
        ItemIsChild(reg, v, spec, p, item);
        AcceptedItem(js, reg, v, item, depth);
      }
    }
  }

  lemma {:induction false} AcceptedItem(js: Engine, reg: Registry, v: Validator, item: Json, depth: nat)
    requires Plain(reg) && WellFormed(reg, v)
    requires FromJson(item).Some? && FromJson(item).value in ChildrenOf(reg, v)
    requires depth <= 3 && NestedAtMost(reg, v, 3 - depth)
    requires forall u :: u in Tree(reg, v) ==> ScriptDemands(js, reg, u)
    ensures TakenItem(js, reg, item, depth)
    decreases Size(item), 6
  {
    hide WellFormed, Tree, ChildrenOf, Taken, Plain, ScriptDemands, NestedAtMost, FromJson, AsValidator, NoTypeParam;
    var c := FromJson(item).value;
    ChildIsNested(reg, v, c, 3 - depth);
    WellFormedUnfolds(reg, v);
    forall u | u in Tree(reg, c) ensures ScriptDemands(js, reg, u) {
      TreeMembers(reg, v, u);
    }
    ReadAlike(js, item);
    AcceptedIsTaken(js, reg, c, depth + 1);
  }

  lemma ChildIsNested(reg: Registry, v: Validator, c: Validator, n: nat)
    requires NestedAtMost(reg, v, n) && c in ChildrenOf(reg, v)
    ensures n > 0 && NestedAtMost(reg, c, n - 1)
  {
  }

  /** Both read an object with a string type alike. */
  lemma ReadAlike(js: Engine, item: Json)
    requires FromJson(item).Some?
    ensures AsValidator(js, item) == FromJson(item) && NoTypeParam(FromJson(item).value)
  {
  }

  lemma UsualLookup(reg: Registry, kind: string, spec: ValidatorSpec, name: string)
    requires Plain(reg) && Get(reg.validators, kind) == Some(spec) && SpecOf(reg, spec, name).Some?
    ensures Lookup(reg, spec, name) == SpecOf(reg, spec, name)
  {
    hide Inherited;
    GetIsIn(reg.validators, kind);
  }

  lemma AcceptedValue(js: Engine, spec: ParamSpec, value: Json)
    requires ValueOk(spec, value) && ScriptDemandsValue(js, spec, value)
    ensures FitsScript(js, spec, value)
    ensures spec.paramType == "validators" ==>
              value.Arr? && forall item :: item in value.items ==> FromJson(item).Some?
  {
    hide ScriptMode, FromJson;
    if spec.paramType == "int" || spec.paramType == "port" {
      assert IsNumber(value, value.n);
    }
  }

  lemma ItemIsChild(reg: Registry, v: Validator, spec: ValidatorSpec, p: Entry<Json>, item: Json)
    requires Get(reg.validators, v.kind) == Some(spec) && p in v.params && p.value.Arr? && item in p.value.items
    requires SpecOf(reg, spec, p.key).Some? && SpecOf(reg, spec, p.key).value.paramType == "validators"
    requires FromJson(item).Some?
    ensures FromJson(item).value in ChildrenOf(reg, v)
  {
    ItemIsRead(p.value.items, item);
    ReadIsChild(reg, spec, v.params, p, FromJson(item).value);
  }

  lemma {:induction false} ItemIsRead(items: seq<Json>, item: Json)
    requires item in items && FromJson(item).Some?
    ensures FromJson(item).value in ReadAll(items)
  {
    hide FromJson;
    assert items == [items[0]] + items[1..];
    if item != items[0] {
      ItemIsRead(items[1..], item);
    }
  }

  lemma {:induction false} ReadIsChild(reg: Registry, spec: ValidatorSpec, params: seq<Entry<Json>>, p: Entry<Json>,
                                       c: Validator)
    requires p in params && p.value.Arr? && c in ReadAll(p.value.items)
    requires SpecOf(reg, spec, p.key).Some? && SpecOf(reg, spec, p.key).value.paramType == "validators"
    ensures c in Children(reg, spec, params)
    decreases |params|
  {
    hide ReadAll, SpecOf;
    assert params == [params[0]] + params[1..];
    if p != params[0] {
      ReadIsChild(reg, spec, params[1..], p, c);
    }
  }

  /** The converse of the twin law.  What the registry check accepts, the script reports nothing for, if nesting is
      at most three deep, every pattern compiles in its engine and every mode has its shape. */
  lemma RegistryCheckImpliesSilence(js: Engine, reg: Registry, v: Validator)
    requires Plain(reg) && NoTypeParam(v) && Check(reg, v).Ok?
    requires NestedAtMost(reg, v, 3) && forall u :: u in Tree(reg, v) ==> ScriptDemands(js, reg, u)
    ensures Problems(js, reg, v, 0) == []
  {
    hide *;
    CheckIsWellFormedness(reg, v);
    AcceptedIsTaken(js, reg, v, 0);
    SilentExactlyWhenTaken(js, reg, v, 0);
  }

  /** What the script demands, one level of nesting after the other. */
  lemma {:induction false} SilenceMeetsDemands(js: Engine, reg: Registry, v: Validator, depth: nat)
    requires Plain(reg) && NoProblem(js, reg, v, depth) && forall u :: u in Tree(reg, v) ==> Agreeable(reg, u)
    ensures depth <= 3 && NestedAtMost(reg, v, 3 - depth)
    ensures forall u :: u in Tree(reg, v) ==> ScriptDemands(js, reg, u)
    decreases FieldsSize(v.params)
  {
    hide Tree, ChildrenOf, ScriptDemands, Taken, Problems, Agreeable, Inherited;
    SilentExactlyWhenTaken(js, reg, v, depth);
    AgreeableUnfolds(reg, v);
    TakenMeetsDemands(js, reg, v, depth);
    var spec := Get(reg.validators, v.kind).value;
    AgreeableNames(reg, v);
    ChildrenAreSilent(js, reg, v, depth);
    forall c | c in ChildrenOf(reg, v)
      ensures depth < 3 && NestedAtMost(reg, c, 3 - depth - 1)
      ensures forall u :: u in Tree(reg, c) ==> ScriptDemands(js, reg, u)
    {
      SilenceMeetsDemands(js, reg, c, depth + 1);
    }
    forall u | u in Tree(reg, v) ensures ScriptDemands(js, reg, u) {
      TreeMembers(reg, v, u);
    }
  }

  lemma AgreeableNames(reg: Registry, v: Validator)
    requires Agreeable(reg, v) && Get(reg.validators, v.kind).Some?
    ensures forall p :: p in v.params ==> !Inherited(p.key)
  {
    hide Inherited, ValueAgrees;
  }

  lemma ChildrenAreSilent(js: Engine, reg: Registry, v: Validator, depth: nat)
    requires NoProblem(js, reg, v, depth) && forall p :: p in v.params ==> !Inherited(p.key)
    requires depth <= 3 && Get(reg.validators, v.kind).Some?
    ensures forall c :: c in ChildrenOf(reg, v) ==> NoProblem(js, reg, c, depth + 1)
  {
    hide Inherited, ParamProblems, MissingProblems, OneOfProblems, Children;
    ChildrenHaveNoProblem(js, reg, v.kind, Get(reg.validators, v.kind).value, v.params, depth);
  }

  lemma TakenMeetsDemands(js: Engine, reg: Registry, v: Validator, depth: nat)
    requires Plain(reg) && Taken(js, reg, v, depth) && NoTypeParam(v)
    ensures depth <= 3 && Get(reg.validators, v.kind).Some? && ScriptDemands(js, reg, v)
  {
    hide Inherited, TakenItem, ScriptMode, Plain;
    var spec := Get(reg.validators, v.kind).value;
    forall p | p in v.params && SpecOf(reg, spec, p.key).Some?
      ensures ScriptDemandsValue(js, SpecOf(reg, spec, p.key).value, p.value)
    {
      UsualLookup(reg, v.kind, spec, p.key);
      assert TakenParam(js, reg, spec, p, depth);
    }
  }

  /** Both directions in one: a validator is silent in the script and agreeable at every depth if and only if the
      registry check accepts it, it is nested at most three deep, and its patterns and modes are the script's. */
  lemma TwinsAgreeExactly(js: Engine, reg: Registry, v: Validator)
    requires Plain(reg) && NoTypeParam(v)
    ensures Problems(js, reg, v, 0) == [] && (forall u :: u in Tree(reg, v) ==> Agreeable(reg, u))
       <==> && Check(reg, v).Ok? && NestedAtMost(reg, v, 3)
            && forall u :: u in Tree(reg, v) ==> ScriptDemands(js, reg, u)
  {
    hide Problems, Check, Tree, Agreeable, ScriptDemands, NestedAtMost, Plain;
    if Problems(js, reg, v, 0) == [] {
      ScriptImpliesRegistryCheck(js, reg, v, 0);
      if forall u :: u in Tree(reg, v) ==> Agreeable(reg, u) {
        SilenceMeetsDemands(js, reg, v, 0);
      }
    }
    if Check(reg, v).Ok? && NestedAtMost(reg, v, 3) && forall u :: u in Tree(reg, v) ==> ScriptDemands(js, reg, u) {
      RegistryCheckImpliesSilence(js, reg, v);
      ScriptImpliesRegistryCheck(js, reg, v, 0);
    }
  }

  // ---------------------------------------------------------------- where they part

  function OneParam(paramType: string): Registry {
    Registry([Entry("check", ValidatorSpec(true, [Entry("value", ParamSpec(paramType, true, []))], []))], [])
  }

  /** A validator whose one declared parameter has this type passes the script and is refused by the
      application. */
  ghost predicate Parts(js: Engine, paramType: string, params: seq<Entry<Json>>) {
    var reg, v := OneParam(paramType), Validator("check", params);
    Plain(reg) && Problems(js, reg, v, 0) == [] && Check(reg, v).Err?
  }

  /** The twins are not equal on all lessons.  They part over a mode with a bare `o`, over a whole number
      that is not written as one, such as `1.0` or `-0`, or takes more than 64 bits, over a parameter
      named like an inherited property, and over a nested type that is not a string but turns into the
      name of a validator. */
  lemma TwinsPart(js: Engine, x: real, n: int, t: Json)
    ensures Parts(js, "mode", [Entry("value", Str("o644"))])
    ensures x.Floor as real == x ==> Parts(js, "int", [Entry("value", Float(x))])
    ensures !(I64_MIN <= n <= I64_MAX) ==> Parts(js, "int", [Entry("value", Int(n))])
    ensures Parts(js, "bool", [Entry("value", Bool(true)), Entry("constructor", Str(""))])
    ensures !t.Str? && js.key(t) == "check" ==>
              Parts(js, "validators", [Entry("value", Arr([Obj([Entry("type", t), Entry("value", Arr([]))])]))])
  {
    hide Parts;
    BareO(js);
    if x.Floor as real == x {
      OddInteger(js, Float(x));
    }
    if !(I64_MIN <= n <= I64_MAX) {
      OddInteger(js, Int(n));
    }
    InheritedName(js);
    if !t.Str? && js.key(t) == "check" {
      OddType(js, t);
    }
  }

  lemma Declared(paramType: string)
    ensures Plain(OneParam(paramType))
    ensures Get(OneParam(paramType).validators, "check")
         == Some(ValidatorSpec(true, [Entry("value", ParamSpec(paramType, true, []))], []))
  {
  }

  lemma BareOPattern()
    ensures ModePattern("o644") && !ParsesAsOctal(TrimOctalPrefix("o644"))
  {
    hide ParsesAsOctal, TrimOctalPrefix;
    assert "o644"[1..] == "644" && ThreeOrFourDigits("644");
    ModesAgree("o644");
  }

  lemma BareO(js: Engine)
    ensures Parts(js, "mode", [Entry("value", Str("o644"))])
  {
    hide ModePattern, ParsesAsOctal, TrimOctalPrefix, Plain, Problems, Check, OneParam;
    BareOPattern();
    Declared("mode");
    SingleParam(js, "mode", Validator("check", [Entry("value", Str("o644"))]), 0);
  }

  lemma OddInteger(js: Engine, value: Json)
    requires IsInteger(value) && AsI64(value).None?
    ensures Parts(js, "int", [Entry("value", value)])
  {
    hide Plain, Problems, Check, OneParam, IsInteger, AsI64;
    Declared("int");
    SingleParam(js, "int", Validator("check", [Entry("value", value)]), 0);
  }

  lemma OddType(js: Engine, t: Json)
    requires !t.Str? && js.key(t) == "check"
    ensures Parts(js, "validators", [Entry("value", Arr([Obj([Entry("type", t), Entry("value", Arr([]))])]))])
  {
    hide Plain, Problems, Check, OneParam, NestedProblems, AsValidator, FromJson;
    var item := Obj([Entry("type", t), Entry("value", Arr([]))]);
    Declared("validators");
    OddTypeIsSilent(js, item, t);
    NotAValidator(item, t);
    assert Arr([item]).items[0] == item;
    SingleParam(js, "validators", Validator("check", [Entry("value", Arr([item]))]), 0);
  }

  lemma NotAValidator(item: Json, t: Json)
    requires item == Obj([Entry("type", t), Entry("value", Arr([]))]) && !t.Str?
    ensures FromJson(item).None?
  {
  }

  lemma ReadByTheScript(js: Engine, item: Json, t: Json)
    requires item == Obj([Entry("type", t), Entry("value", Arr([]))]) && !t.Str? && js.key(t) == "check"
    ensures AsValidator(js, item) == Some(Validator("check", [Entry("value", Arr([]))]))
  {
    var rest := [Entry("value", Arr([]))];
    assert item.fields[0].key == "type" && item.fields[1..] == rest;
    assert rest[1..] == [] && WithoutType(rest) == rest;
    assert WithoutType(item.fields) == rest;
  }

  lemma OddTypeIsSilent(js: Engine, item: Json, t: Json)
    requires item == Obj([Entry("type", t), Entry("value", Arr([]))]) && !t.Str? && js.key(t) == "check"
    ensures NestedProblems(js, OneParam("validators"), "check", "value", [item], 0) == []
  {
    hide Problems, OneParam, AsValidator;
    var reg := OneParam("validators");
    ReadByTheScript(js, item, t);
    assert NestedProblems(js, reg, "check", "value", [], 1) == [];
    SingleParam(js, "validators", Validator("check", [Entry("value", Arr([]))]), 1);
    assert [item][1..] == [];
  }

  lemma SingleParam(js: Engine, paramType: string, v: Validator, depth: nat)
    requires v.kind == "check" && |v.params| == 1 && v.params[0].key == "value" && depth <= 3
    requires ValueProblems(js, OneParam(paramType), "check", "value", ParamSpec(paramType, true, []),
               v.params[0].value, depth) == []
    ensures Problems(js, OneParam(paramType), v, depth) == []
    ensures !ValueOk(ParamSpec(paramType, true, []), v.params[0].value) ==> Check(OneParam(paramType), v).Err?
  {
    hide ValueProblems, ValueOk;
    var reg := OneParam(paramType);
    var spec := reg.validators[0].value;
    assert spec.params[1..] == [] && v.params[1..] == [];
    assert MissingProblems("check", spec.params, v) == [];
    assert Get(spec.params, "value") == Some(ParamSpec(paramType, true, []));
    assert ParamProblem(js, reg, "check", spec, v.params[0], depth) == [];
    assert ParamProblems(js, reg, "check", spec, v.params[1..], depth) == [];
    CheckIsWellFormedness(reg, v);
    WellFormedUnfolds(reg, v);
    assert v.params[0] in v.params;
  }

  lemma InheritedName(js: Engine)
    ensures Parts(js, "bool", [Entry("value", Bool(true)), Entry("constructor", Str(""))])
  {
    var reg, v := OneParam("bool"), Validator("check", [Entry("value", Bool(true)), Entry("constructor", Str(""))]);
    var spec := reg.validators[0].value;
    Declared("bool");
    assert spec.params[1..] == [] && v.params[1..] == [Entry("constructor", Str(""))] && v.params[1..][1..] == [];
    assert v.params[0].key == "value" && Has(v.params, "value");
    assert Inherited("constructor") by { assert INHERITED[0] == "constructor"; }
    hide Inherited, INHERITED, Plain;
    InheritedNameIsSilent(js, reg, spec, v);
    hide Problems, MissingProblems, ParamProblems, ParamProblem;
    assert !Has(spec.params, "constructor");
    CheckIsWellFormedness(reg, v);
    WellFormedUnfolds(reg, v);
    assert v.params[1] in v.params && SpecOf(reg, spec, "constructor").None?;
  }

  /** One parameter as declared, and one with an inherited name. */
  lemma InheritedNameIsSilent(js: Engine, reg: Registry, spec: ValidatorSpec, v: Validator)
    requires reg == OneParam("bool") && spec == reg.validators[0].value && Inherited("constructor")
    requires v == Validator("check", [Entry("value", Bool(true)), Entry("constructor", Str(""))])
    ensures Problems(js, reg, v, 0) == []
  {
    hide Inherited, INHERITED;
    assert spec.params[1..] == [] && v.params[1..] == [Entry("constructor", Str(""))] && v.params[1..][1..] == [];
    assert v.params[0].key == "value" && Has(v.params, "value");
    assert MissingProblems("check", spec.params, v) == [];
    assert !Has(spec.params, "constructor");
    assert ParamProblem(js, reg, "check", spec, v.params[0], 0) == [];
    assert ParamProblem(js, reg, "check", spec, v.params[1], 0) == [];
    assert ParamProblems(js, reg, "check", spec, v.params[1..][1..], 0) == [];
    assert ParamProblems(js, reg, "check", spec, v.params[1..], 0) == [];
  }
}
