/** The validator registry check (crates/shared-types/src/registry.rs). */
module ValidatorRegistry {
  import opened Prelude

  // ---------------------------------------------------------------- data

  /** An ordered map, listed in key order as `BTreeMap` iterates it. */
  datatype Entry<+V> = Entry(key: string, value: V)

  function Get<V>(m: seq<Entry<V>>, key: string): (r: Option<V>)
    ensures r.Some? <==> Has(m, key)
  {
    if m == [] then None
    else if m[0].key == key then Some(m[0].value)
    else Get(m[1..], key)
  }

  predicate Has<V>(m: seq<Entry<V>>, key: string) {
    exists i :: 0 <= i < |m| && m[i].key == key
  }

  /** `Int` is a number written without fraction and exponent, `Float` any other; the literal `-0` is a
      `Float` too, since that is how the Rust parser reads it. */
  datatype Json =
    | Null
    | Bool(b: bool)
    | Int(n: int)
    | Float(x: real)
    | Str(s: string)
    | Arr(items: seq<Json>)
    | Obj(fields: seq<Entry<Json>>)

  datatype Validator = Validator(kind: string, params: seq<Entry<Json>>)

  datatype ParamSpec = ParamSpec(paramType: string, required: bool, values: seq<string>)

  datatype ValidatorSpec = ValidatorSpec(implemented: bool, params: seq<Entry<ParamSpec>>, requiresOneOf: seq<string>)

  datatype Registry = Registry(validators: seq<Entry<ValidatorSpec>>, commonParams: seq<Entry<ParamSpec>>)

  datatype RegistryError =
    | UnknownValidator(kind: string)
    | NotImplemented(kind: string)
    | UnknownParam(kind: string, param: string)
    | MissingParam(kind: string, param: string)
    | MissingOneOf(kind: string, options: seq<string>)
    | WrongParamType(kind: string, param: string)
    | BadEnumValue(kind: string, param: string, allowed: seq<string>)

  // ---------------------------------------------------------------- size, for termination

  function Size(j: Json): (n: nat)
    ensures n >= 1
  {
    match j
    case Arr(items) => 1 + ItemsSize(items)
    case Obj(fields) => 1 + FieldsSize(fields)
    case _ => 1
  }

  function ItemsSize(items: seq<Json>): (n: nat)
    ensures forall i :: 0 <= i < |items| ==> Size(items[i]) <= n
  {
    if items == [] then 0 else Size(items[0]) + ItemsSize(items[1..])
  }

  function FieldsSize(fields: seq<Entry<Json>>): (n: nat)
    ensures forall i :: 0 <= i < |fields| ==> Size(fields[i].value) < n
  {
    if fields == [] then 0 else 1 + Size(fields[0].value) + FieldsSize(fields[1..])
  }

  function WithoutType(fields: seq<Entry<Json>>): (r: seq<Entry<Json>>)
    ensures FieldsSize(r) <= FieldsSize(fields)
    ensures forall f :: f in r <==> f in fields && f.key != "type"
  {
    if fields == [] then []
    else
      var rest := WithoutType(fields[1..]);
      assert ([fields[0]] + rest)[1..] == rest;
      if fields[0].key == "type" then rest else [fields[0]] + rest
  }

  /** A JSON value read as a validator: an object whose `type` is a string, the other fields
      being the parameters. */
  function FromJson(j: Json): (r: Option<Validator>)
    ensures r.Some? <==> j.Obj? && exists kind :: Get(j.fields, "type") == Some(Str(kind))
    ensures r.Some? ==> Get(j.fields, "type") == Some(Str(r.value.kind))
    ensures r.Some? ==> FieldsSize(r.value.params) < Size(j)
  {
    match j
    case Obj(fields) =>
      var t: Option<Json> := Get(fields, "type");
      if t.Some? && t.value.Str? then Some(Validator(t.value.s, WithoutType(fields))) else None
    case _ => None
  }

  // ---------------------------------------------------------------- the check

  const I64_MIN: int := -0x8000_0000_0000_0000
  const I64_MAX: int := 0x7FFF_FFFF_FFFF_FFFF

  function AsI64(j: Json): Option<int> {
    if j.Int? && I64_MIN <= j.n <= I64_MAX then Some(j.n) else None
  }

  predicate OctalDigits(s: string) {
    forall i :: 0 <= i < |s| ==> '0' <= s[i] <= '7'
  }

  function OctalValue(s: string): nat
    requires OctalDigits(s)
  {
    if s == "" then 0 else OctalValue(s[..|s| - 1]) * 8 + (s[|s| - 1] - '0') as nat
  }

  /** `u32::from_str_radix(s, 8).is_ok()`. */
  predicate ParsesAsOctal(s: string) {
    var digits := if s != "" && s[0] == '+' then s[1..] else s;
    digits != "" && OctalDigits(digits) && OctalValue(digits) <= 0xFFFF_FFFF
  }

  /** `trim_start_matches("0o")`. */
  function TrimOctalPrefix(s: string): string {
    if "0o" <= s then TrimOctalPrefix(s[2..]) else s
  }

  predicate IsHexDigit(c: char) {
    '0' <= c <= '9' || 'a' <= c <= 'f' || 'A' <= c <= 'F'
  }

  predicate IsSha256(s: string) {
    |s| == 64 && forall i :: 0 <= i < |s| ==> IsHexDigit(s[i])
  }

  function FirstUnknown(reg: Registry, spec: ValidatorSpec, params: seq<Entry<Json>>): Option<string> {
    if params == [] then None
    else if !Has(spec.params, params[0].key) && !Has(reg.commonParams, params[0].key) then Some(params[0].key)
    else FirstUnknown(reg, spec, params[1..])
  }

  function FirstMissing(specs: seq<Entry<ParamSpec>>, params: seq<Entry<Json>>): Option<string> {
    if specs == [] then None
    else if specs[0].value.required && !Has(params, specs[0].key) then Some(specs[0].key)
    else FirstMissing(specs[1..], params)
  }

  /** The specification that applies to a parameter: the validator's own, else a common one. */
  function SpecOf(reg: Registry, spec: ValidatorSpec, name: string): Option<ParamSpec> {
    if Has(spec.params, name) then Get(spec.params, name) else Get(reg.commonParams, name)
  }

  function Check(reg: Registry, v: Validator): Result<(), RegistryError>
    decreases FieldsSize(v.params), 3
  {
    match Get(reg.validators, v.kind)
    case None => Err(UnknownValidator(v.kind))
    case Some(spec) =>
      if !spec.implemented then Err(NotImplemented(v.kind))
      else if FirstUnknown(reg, spec, v.params).Some? then
        Err(UnknownParam(v.kind, FirstUnknown(reg, spec, v.params).value))
      else if FirstMissing(spec.params, v.params).Some? then
        Err(MissingParam(v.kind, FirstMissing(spec.params, v.params).value))
      else if spec.requiresOneOf != [] && !(exists name :: name in spec.requiresOneOf && Has(v.params, name)) then
        Err(MissingOneOf(v.kind, spec.requiresOneOf))
      else CheckParams(reg, v.kind, spec, v.params)
  }

  /** The first parameter that fails decides.  Unknown parameters were rejected above, so the
      last case is never taken from `Check`. */
  function CheckParams(reg: Registry, kind: string, spec: ValidatorSpec, params: seq<Entry<Json>>):
    Result<(), RegistryError>
    decreases FieldsSize(params), 2
  {
    if params == [] then Ok(())
    else
      match SpecOf(reg, spec, params[0].key)
      case Some(param) =>
        var first := CheckValue(reg, kind, params[0].key, param, params[0].value);
        if first.Err? then first else CheckParams(reg, kind, spec, params[1..])
      case None => Err(UnknownParam(kind, params[0].key))
  }

  function CheckValue(reg: Registry, kind: string, name: string, spec: ParamSpec, value: Json):
    Result<(), RegistryError>
    decreases Size(value), 1
  {
    var wrong := Err(WrongParamType(kind, name));
    match spec.paramType
    case "int" => if AsI64(value).Some? then Ok(()) else wrong
    case "port" => if AsI64(value).Some? && 1 <= value.n <= 65535 then Ok(()) else wrong
    case "bool" => if value.Bool? then Ok(()) else wrong
    case "list<string>" =>
      if value.Arr? && (forall i :: 0 <= i < |value.items| ==> value.items[i].Str?) then Ok(()) else wrong
    case "validators" => if value.Arr? then CheckNested(reg, kind, name, value.items) else wrong
    case "enum" =>
      if !value.Str? then wrong
      else if value.s in spec.values then Ok(())
      else Err(BadEnumValue(kind, name, spec.values))
    case "path" => if value.Str? && value.s != "" then Ok(()) else wrong
    case "mode" =>
      if value.Str? then (if ParsesAsOctal(TrimOctalPrefix(value.s)) then Ok(()) else wrong)
      else if value.Int? || value.Float? then Ok(())
      else wrong
    case "sha256" => if value.Str? && IsSha256(value.s) then Ok(()) else wrong
    case _ => if value.Str? then Ok(()) else wrong
  }

  function CheckNested(reg: Registry, kind: string, name: string, items: seq<Json>): Result<(), RegistryError>
    decreases ItemsSize(items), 0
  {
    if items == [] then Ok(())
    else
      match FromJson(items[0])
      case None => Err(WrongParamType(kind, name))
      case Some(v) =>
        var first := Check(reg, v);
        if first.Err? then first else CheckNested(reg, kind, name, items[1..])
  }

  // ---------------------------------------------------------------- well-formedness

  /** What one value must look like, nested validators aside. */
  ghost predicate ValueOk(spec: ParamSpec, value: Json) {
    match spec.paramType
    case "int" => AsI64(value).Some?
    case "port" => AsI64(value).Some? && 1 <= value.n <= 65535
    case "bool" => value.Bool?
    case "list<string>" => value.Arr? && forall i :: 0 <= i < |value.items| ==> value.items[i].Str?
    case "validators" => value.Arr? && forall i :: 0 <= i < |value.items| ==> FromJson(value.items[i]).Some?
    case "enum" => value.Str? && value.s in spec.values
    case "path" => value.Str? && value.s != ""
    case "mode" => value.Int? || value.Float? || (value.Str? && ParsesAsOctal(TrimOctalPrefix(value.s)))
    case "sha256" => value.Str? && IsSha256(value.s)
    case _ => value.Str?
  }

  /** What one validator must look like, nested validators aside. */
  ghost predicate LocallyOk(reg: Registry, v: Validator) {
    match Get(reg.validators, v.kind)
    case None => false
    case Some(spec) =>
      && spec.implemented
      && (forall e :: e in spec.params && e.value.required ==> Has(v.params, e.key))
      && (spec.requiresOneOf == [] || exists name :: name in spec.requiresOneOf && Has(v.params, name))
      && forall p :: p in v.params ==>
          SpecOf(reg, spec, p.key).Some? && ValueOk(SpecOf(reg, spec, p.key).value, p.value)
  }

  /** The validators found in the parameters that the registry calls lists of validators. */
  ghost function Children(reg: Registry, spec: ValidatorSpec, params: seq<Entry<Json>>): (r: seq<Validator>)
    ensures forall u :: u in r ==> FieldsSize(u.params) < FieldsSize(params)
  {
    if params == [] then []
    else
      var s := SpecOf(reg, spec, params[0].key);
      (if s.Some? && s.value.paramType == "validators" && params[0].value.Arr?
       then ReadAll(params[0].value.items) else [])
      + Children(reg, spec, params[1..])
  }

  ghost function ReadAll(items: seq<Json>): (r: seq<Validator>)
    ensures forall u :: u in r ==> FieldsSize(u.params) < ItemsSize(items)
  {
    if items == [] then []
    else
      (match FromJson(items[0]) case Some(v) => [v] case None => []) + ReadAll(items[1..])
  }

  ghost function ChildrenOf(reg: Registry, v: Validator): (r: seq<Validator>)
    ensures forall u :: u in r ==> FieldsSize(u.params) < FieldsSize(v.params)
  {
    var spec: Option<ValidatorSpec> := Get(reg.validators, v.kind);
    if spec.Some? then Children(reg, spec.value, v.params) else []
  }

  /** `v` and every validator nested in it, at every depth. */
  ghost function Tree(reg: Registry, v: Validator): seq<Validator>
    decreases FieldsSize(v.params), 1
  {
    [v] + Forest(reg, ChildrenOf(reg, v), FieldsSize(v.params))
  }

  ghost function Forest(reg: Registry, vs: seq<Validator>, bound: nat): seq<Validator>
    requires forall u :: u in vs ==> FieldsSize(u.params) < bound
    decreases bound, 0, |vs|
  {
    if vs == [] then [] else Tree(reg, vs[0]) + Forest(reg, vs[1..], bound)
  }

  lemma {:induction false} ForestMembers(reg: Registry, vs: seq<Validator>, bound: nat, u: Validator)
    requires forall c :: c in vs ==> FieldsSize(c.params) < bound
    ensures u in Forest(reg, vs, bound) <==> exists c :: c in vs && u in Tree(reg, c)
    decreases |vs|
  {
    if vs != [] {
      ForestMembers(reg, vs[1..], bound, u);
      assert Forest(reg, vs, bound) == Tree(reg, vs[0]) + Forest(reg, vs[1..], bound);
      hide Tree, Forest;
      assert vs == [vs[0]] + vs[1..];
      assert vs[0] in vs;
    }
  }

  lemma TreeMembers(reg: Registry, v: Validator, u: Validator)
    ensures u in Tree(reg, v) <==> u == v || exists c :: c in ChildrenOf(reg, v) && u in Tree(reg, c)
  {
    hide Forest, ChildrenOf;
    ForestMembers(reg, ChildrenOf(reg, v), FieldsSize(v.params), u);
  }

  /** Every validator of the tree is fine on its own. */
  ghost predicate WellFormed(reg: Registry, v: Validator) {
    forall u :: u in Tree(reg, v) ==> LocallyOk(reg, u)
  }

  lemma WellFormedUnfolds(reg: Registry, v: Validator)
    ensures WellFormed(reg, v)
       <==> LocallyOk(reg, v) && forall c :: c in ChildrenOf(reg, v) ==> WellFormed(reg, c)
  {
    hide Tree, ChildrenOf, LocallyOk;
    forall u ensures u in Tree(reg, v) <==> u == v || exists c :: c in ChildrenOf(reg, v) && u in Tree(reg, c) {
      TreeMembers(reg, v, u);
    }
  }

  lemma {:induction false} FirstUnknownFindsAny(reg: Registry, spec: ValidatorSpec, params: seq<Entry<Json>>)
    ensures FirstUnknown(reg, spec, params).None? <==> forall p :: p in params ==> SpecOf(reg, spec, p.key).Some?
  {
    if params != [] {
      FirstUnknownFindsAny(reg, spec, params[1..]);
      assert params == [params[0]] + params[1..];
    }
  }

  lemma {:induction false} FirstMissingFindsAny(specs: seq<Entry<ParamSpec>>, params: seq<Entry<Json>>)
    ensures FirstMissing(specs, params).None? <==> forall e :: e in specs && e.value.required ==> Has(params, e.key)
  {
    if specs != [] {
      FirstMissingFindsAny(specs[1..], params);
      assert specs == [specs[0]] + specs[1..];
    }
  }

  /** `Registry::check` accepts a validator exactly when it and everything nested in it, at
      every depth, is well formed on its own. */
  lemma {:induction false} CheckIsWellFormedness(reg: Registry, v: Validator)
    ensures Check(reg, v).Ok? <==> WellFormed(reg, v)
    decreases FieldsSize(v.params), 3
  {
    hide WellFormed, ValueOk, SpecOf, FirstUnknown, FirstMissing, CheckParams, Children;
    WellFormedUnfolds(reg, v);
    match Get(reg.validators, v.kind)
    case None =>
    case Some(spec) =>
      FirstUnknownFindsAny(reg, spec, v.params);
      FirstMissingFindsAny(spec.params, v.params);
      CheckParamsIsValues(reg, v.kind, spec, v.params);
  }

  lemma {:induction false} CheckParamsIsValues(reg: Registry, kind: string, spec: ValidatorSpec,
                                               params: seq<Entry<Json>>)
    ensures CheckParams(reg, kind, spec, params).Ok?
       <==> && (forall p :: p in params ==>
           SpecOf(reg, spec, p.key).Some? && ValueOk(SpecOf(reg, spec, p.key).value, p.value))
            && forall c :: c in Children(reg, spec, params) ==> WellFormed(reg, c)
    decreases FieldsSize(params), 2
  {
    hide WellFormed, ValueOk, CheckValue, SpecOf;
    if params != [] {
      var first := SpecOf(reg, spec, params[0].key);
      assert params == [params[0]] + params[1..];
      CheckParamsIsValues(reg, kind, spec, params[1..]);
      if first.Some? {
        CheckValueIsValue(reg, kind, params[0].key, first.value, params[0].value);
      }
    }
  }

  /** The validators that one value lists. */
  ghost function Listed(spec: ParamSpec, value: Json): seq<Validator> {
    if spec.paramType == "validators" && value.Arr? then ReadAll(value.items) else []
  }

  lemma CheckValueIsValue(reg: Registry, kind: string, name: string, spec: ParamSpec, value: Json)
    ensures CheckValue(reg, kind, name, spec, value).Ok?
       <==> ValueOk(spec, value) && forall c :: c in Listed(spec, value) ==> WellFormed(reg, c)
    decreases Size(value), 1
  {
    hide FromJson, WellFormed, CheckNested, ReadAll, ParsesAsOctal, TrimOctalPrefix, IsSha256, AsI64;
    if spec.paramType == "validators" && value.Arr? {
      CheckNestedIsTrees(reg, kind, name, value.items);
    }
  }

  lemma {:induction false} CheckNestedIsTrees(reg: Registry, kind: string, name: string, items: seq<Json>)
    ensures CheckNested(reg, kind, name, items).Ok?
       <==> && (forall i :: 0 <= i < |items| ==> FromJson(items[i]).Some?)
            && forall c :: c in ReadAll(items) ==> WellFormed(reg, c)
    decreases ItemsSize(items), 0
  {
    hide WellFormed, Check, FromJson;
    if items != [] {
      CheckNestedIsTrees(reg, kind, name, items[1..]);
      assert items == [items[0]] + items[1..];
      if FromJson(items[0]).Some? {
        CheckIsWellFormedness(reg, FromJson(items[0]).value);
      }
    }
  }

  // ---------------------------------------------------------------- which error it is

  /** `params[..n]` are known to the registry. */
  ghost predicate KnownTo(reg: Registry, spec: ValidatorSpec, params: seq<Entry<Json>>, n: nat) {
    forall j :: 0 <= j < n && j < |params| ==> SpecOf(reg, spec, params[j].key).Some?
  }

  /** None of the first `n` required parameters is missing. */
  ghost predicate Present(specs: seq<Entry<ParamSpec>>, params: seq<Entry<Json>>, n: nat) {
    forall j :: 0 <= j < n && j < |specs| && specs[j].value.required ==> Has(params, specs[j].key)
  }

  ghost predicate Fits(reg: Registry, spec: ParamSpec, value: Json) {
    ValueOk(spec, value) && forall c :: c in Listed(spec, value) ==> WellFormed(reg, c)
  }

  ghost predicate ReadsWell(reg: Registry, item: Json) {
    FromJson(item).Some? && WellFormed(reg, FromJson(item).value)
  }

  /** The error is about the first thing that is wrong: with the kind itself, with the first unknown parameter, the
      first one missing, none of several given, or the first value that does not fit. */
  ghost predicate Blames(reg: Registry, v: Validator, e: RegistryError)
    decreases FieldsSize(v.params), 2
  {
    match Get(reg.validators, v.kind)
    case None => e == UnknownValidator(v.kind)
    case Some(spec) =>
      if !spec.implemented then e == NotImplemented(v.kind)
      else if !KnownTo(reg, spec, v.params, |v.params|) then
        exists n :: 0 <= n < |v.params| && e == UnknownParam(v.kind, v.params[n].key)
                    && KnownTo(reg, spec, v.params, n) && SpecOf(reg, spec, v.params[n].key).None?
      else if !Present(spec.params, v.params, |spec.params|) then
        exists n :: 0 <= n < |spec.params| && e == MissingParam(v.kind, spec.params[n].key)
                    && Present(spec.params, v.params, n) && !Present(spec.params, v.params, n + 1)
      else if spec.requiresOneOf != [] && forall name :: name in spec.requiresOneOf ==> !Has(v.params, name) then
        e == MissingOneOf(v.kind, spec.requiresOneOf)
      else
        exists n ::
          && 0 <= n < |v.params|
          && (forall j :: 0 <= j < n ==> Fits(reg, SpecOf(reg, spec, v.params[j].key).value, v.params[j].value))
          && BlamesValue(reg, v.kind, v.params[n].key, SpecOf(reg, spec, v.params[n].key).value, v.params[n].value, e)
  }

  ghost predicate BlamesValue(reg: Registry, kind: string, name: string, spec: ParamSpec, value: Json, e: RegistryError)
    decreases Size(value), 1
  {
    if spec.paramType == "validators" && value.Arr? then
      exists n ::
        && 0 <= n < |value.items| && (forall j :: 0 <= j < n ==> ReadsWell(reg, value.items[j]))
        && match FromJson(value.items[n])
           case None => e == WrongParamType(kind, name)
           case Some(c) => Blames(reg, c, e)
    else
      !ValueOk(spec, value)
      && e == if spec.paramType == "enum" && value.Str? then BadEnumValue(kind, name, spec.values)
              else WrongParamType(kind, name)
  }

  lemma {:induction false} FirstUnknownIsFirst(reg: Registry, spec: ValidatorSpec, params: seq<Entry<Json>>)
    returns (n: nat)
    requires FirstUnknown(reg, spec, params).Some?
    ensures n < |params| && params[n].key == FirstUnknown(reg, spec, params).value
    ensures KnownTo(reg, spec, params, n) && SpecOf(reg, spec, params[n].key).None?
  {
    n := 0;
    if SpecOf(reg, spec, params[0].key).Some? {
      n := FirstUnknownIsFirst(reg, spec, params[1..]);
      hide FirstUnknown, SpecOf;
      forall j | 0 <= j < n + 1 ensures SpecOf(reg, spec, params[j].key).Some? {
        assert j > 0 ==> params[j] == params[1..][j - 1];
      }
      n := n + 1;
    }
  }

  lemma {:induction false} FirstMissingIsFirst(specs: seq<Entry<ParamSpec>>, params: seq<Entry<Json>>)
    returns (n: nat)
    requires FirstMissing(specs, params).Some?
    ensures n < |specs| && specs[n].key == FirstMissing(specs, params).value
    ensures Present(specs, params, n) && !Present(specs, params, n + 1)
  {
    n := 0;
    if !(specs[0].value.required && !Has(params, specs[0].key)) {
      n := FirstMissingIsFirst(specs[1..], params);
      hide FirstMissing, Has;
      assert forall j :: 0 < j < |specs| ==> specs[j] == specs[1..][j - 1];
      assert specs[1..][n] == specs[n + 1];
      n := n + 1;
    }
  }

  /** The error that the check returns is about the first thing that is wrong. */
  lemma {:induction false} CheckBlamesTheFirst(reg: Registry, v: Validator)
    requires Check(reg, v).Err?
    ensures Blames(reg, v, Check(reg, v).error)
    decreases FieldsSize(v.params), 3
  {
    hide WellFormed, ValueOk, SpecOf, FirstUnknown, FirstMissing, CheckParams, BlamesValue, Fits, KnownTo, Present;
    var found: Option<ValidatorSpec> := Get(reg.validators, v.kind);
    if found.Some? && found.value.implemented {
      var spec := found.value;
      KnownMeansNoneUnknown(reg, spec, v.params);
      PresentMeansNoneMissing(spec.params, v.params);
      if FirstUnknown(reg, spec, v.params).Some? {
        var n := FirstUnknownIsFirst(reg, spec, v.params);
      } else if FirstMissing(spec.params, v.params).Some? {
        var n := FirstMissingIsFirst(spec.params, v.params);
      } else if CheckParams(reg, v.kind, spec, v.params).Err? {
        var n := ParamsBlameTheFirst(reg, v.kind, spec, v.params);
      }
    }
  }

  lemma KnownMeansNoneUnknown(reg: Registry, spec: ValidatorSpec, params: seq<Entry<Json>>)
    ensures KnownTo(reg, spec, params, |params|) <==> FirstUnknown(reg, spec, params).None?
  {
    hide FirstUnknown, SpecOf;
    FirstUnknownFindsAny(reg, spec, params);
  }

  lemma PresentMeansNoneMissing(specs: seq<Entry<ParamSpec>>, params: seq<Entry<Json>>)
    ensures Present(specs, params, |specs|) <==> FirstMissing(specs, params).None?
  {
    hide FirstMissing, Has;
    FirstMissingFindsAny(specs, params);
  }

  lemma {:induction false} ParamsBlameTheFirst(reg: Registry, kind: string, spec: ValidatorSpec,
                                               params: seq<Entry<Json>>) returns (n: nat)
    requires KnownTo(reg, spec, params, |params|) && CheckParams(reg, kind, spec, params).Err?
    ensures n < |params|
    ensures forall j :: 0 <= j < n ==>
              SpecOf(reg, spec, params[j].key).Some?
              && Fits(reg, SpecOf(reg, spec, params[j].key).value, params[j].value)
    ensures SpecOf(reg, spec, params[n].key).Some?
    ensures BlamesValue(reg, kind, params[n].key, SpecOf(reg, spec, params[n].key).value, params[n].value,
                        CheckParams(reg, kind, spec, params).error)
    decreases FieldsSize(params), 2
  {
    hide WellFormed, ValueOk, CheckValue, SpecOf, BlamesValue, Listed;
    n := 0;
    var first := SpecOf(reg, spec, params[0].key).value;
    CheckValueIsValue(reg, kind, params[0].key, first, params[0].value);
    if CheckValue(reg, kind, params[0].key, first, params[0].value).Err? {
      ValueIsBlamed(reg, kind, params[0].key, first, params[0].value);
    } else {
      assert forall j :: 0 < j < |params| ==> params[j] == params[1..][j - 1];
      n := ParamsBlameTheFirst(reg, kind, spec, params[1..]);
      assert params[1..][n] == params[n + 1];
      n := n + 1;
    }
  }

  lemma {:induction false} ValueIsBlamed(reg: Registry, kind: string, name: string, spec: ParamSpec, value: Json)
    requires CheckValue(reg, kind, name, spec, value).Err?
    ensures BlamesValue(reg, kind, name, spec, value, CheckValue(reg, kind, name, spec, value).error)
    decreases Size(value), 1
  {
    hide Blames, ReadsWell, CheckNested;
    if spec.paramType == "validators" && value.Arr? {
      var n := NestedBlamesTheFirst(reg, kind, name, value.items);
    } else {
      CheckValueIsValue(reg, kind, name, spec, value);
    }
  }

  lemma {:induction false} NestedBlamesTheFirst(reg: Registry, kind: string, name: string, items: seq<Json>)
    returns (n: nat)
    requires CheckNested(reg, kind, name, items).Err?
    ensures n < |items| && forall j :: 0 <= j < n ==> ReadsWell(reg, items[j])
    ensures var e := CheckNested(reg, kind, name, items).error;
      match FromJson(items[n])
      case None => e == WrongParamType(kind, name)
      case Some(c) => Blames(reg, c, e)
    decreases ItemsSize(items), 0
  {
    hide WellFormed, Check, FromJson, Blames;
    n := 0;
    if FromJson(items[0]).Some? {
      var c := FromJson(items[0]).value;
      CheckIsWellFormedness(reg, c);
      if Check(reg, c).Err? {
        CheckBlamesTheFirst(reg, c);
      } else {
        n := NestedBlamesTheFirst(reg, kind, name, items[1..]);
        assert forall j :: 0 < j < |items| ==> items[j] == items[1..][j - 1];
        assert items[1..][n] == items[n + 1];
        n := n + 1;
      }
    }
  }
}
