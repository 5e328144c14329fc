/** What the tsValidity engine computes (src/tsValidity/validateStruct.ts), as functions.
    The methods in module ValidateStruct are proved to compute exactly these. */
module TsStructSpec {
  import opened Wrappers
  import opened Values
  import opened Types
  import opened TsRules
  import opened ErrorObjects

  /** How many builder results in a row `validateArrayField` resolves before the
      JavaScript call stack overflows. */
  const MaxBuilderChain: nat := 1000

  /** The entry is a rule function that rejects `value`. */
  predicate Fails(env: Env, value: Value, root: Value, e: Entry) {
    e.RuleFunc? && !env.ruleFunc(e.f, value, root).isValid
  }

  /** The messages of the failing rule functions of a list, in list order. */
  function Failures(env: Env, value: Value, root: Value, entries: seq<Entry>): seq<string> {
    if entries == [] then []
    else
      var last := entries[|entries| - 1];
      Failures(env, value, root, entries[..|entries| - 1])
        + (if Fails(env, value, root, last) then [env.ruleFunc(last.f, value, root).errorMessage] else [])
  }

  predicate HasNonFunction(entries: seq<Entry>) {
    exists i :: 0 <= i < |entries| && entries[i].NotAFunction?
  }

  /** `validatePrimitiveField` on the field value: it throws when an entry is truthy but
      not a function, and otherwise yields the failures (valid iff there are none). */
  function PrimitiveFieldErrors(env: Env, value: Value, root: Value, entries: seq<Entry>): Outcome<seq<string>> {
    if HasNonFunction(entries) then Throws else Ok(Failures(env, value, root, entries))
  }

  /** The `errors` part of `validateArrayField`: the `arrayRules` list run against the
      array as a whole. Any other `arrayRules` value runs no rule. */
  function WholeArrayErrors(env: Env, value: Value, root: Value, arrayRules: Rule): Outcome<Option<seq<string>>> {
    if arrayRules.PrimitiveList? then
      var msgs :- PrimitiveFieldErrors(env, value, root, arrayRules.entries);
      Ok(if msgs == [] then None else Some(msgs))
    else Ok(None)
  }

  /** `validateStruct`: the error object of `obj` under `rule`, `None` for `undefined`.
      Reading `obj[key]` throws when `obj` is `undefined` or `null` and the rule has a key. */
  function StructErrors(env: Env, obj: Value, root: Value, rule: Rule): Outcome<Option<ErrorOf>>
    decreases Defined(obj), obj, 1, 0
  {
    if OwnRuleKeys(rule) == {} then Ok(None)
    else if IsNullish(obj) then Throws
    else Assemble(KeyResults(env, obj, root, rule))
  }

  /** What the loop body yields for each own key of the rule, given `obj[key]`. */
  function KeyResults(env: Env, obj: Value, root: Value, rule: Rule): map<string, Outcome<Option<ErrorTree>>>
    requires !IsNullish(obj)
    decreases Defined(obj), obj, 0, 0
  {
    map k | k in OwnRuleKeys(rule) :: KeyErrors(env, Get(obj, k), root, RuleAt(env, rule, k))
  }

  /** The body of the `for...in` loop of `validateStruct` for a key whose value
      `object[key]` is `value`: the entry it assigns to the error object, if any. */
  function KeyErrors(env: Env, value: Value, root: Value, rule: Rule): Outcome<Option<ErrorTree>>
    decreases Defined(value), value, 7, 0
  {
    match GetPropertyTypeBasedOnItsRule(rule)
    case PrimitiveType =>
      var msgs :- PrimitiveFieldErrors(env, value, root, rule.entries);
      Ok(if msgs == [] then None else Some(FieldErrors(msgs)))
    case ArrayType => ArrayKeyErrors(env, value, root, rule)
    case ObjectType =>
      var e :- ObjectFieldErrors(env, value, root, rule);
      Ok(if e.None? then None else Some(ObjectErrors(e.value)))
    case UndefinedType => Ok(None)
  }

  /** The `case "array"` branch: a falsy value goes to `validateObjectField`, which
      reports it valid; an array goes to `validateArrayField`, whose node is assigned when
      it has `errors` or `errorsEach`; any other value is not validated. */
  function ArrayKeyErrors(env: Env, value: Value, root: Value, rule: Rule): Outcome<Option<ErrorTree>>
    decreases Defined(value), value, 6, 0
  {
    if Truthy(value) && value.Arr? then
      var a :- ArrayFieldErrors(env, value, root, rule, MaxBuilderChain);
      Ok(if a.Some? && (a.value.errors.Some? || a.value.errorsEach.ErrorsEach?) then Some(ArrayErrors(a.value)) else None)
    else Ok(None)
  }

  /** `validateObjectField` on the field value: a falsy value is silently valid;
      otherwise it is validated against `rule`. `None` is `{isValid: true}`. */
  function ObjectFieldErrors(env: Env, value: Value, root: Value, rule: Rule): Outcome<Option<ErrorOf>>
    decreases Defined(value), value, 2, 0
  {
    if !Truthy(value) then Ok(None) else StructErrors(env, value, root, rule)
  }

  /** `validateArrayField` on the field value: a builder is applied to `(value, root)`
      and its result validated in its place, as often as `fuel` allows; the resolved node
      is then validated by `ArrayNodeErrors`. */
  function ArrayFieldErrors(env: Env, value: Value, root: Value, rule: Rule, fuel: nat)
    : Outcome<Option<ErrorOfArray>>
    decreases Defined(value), value, 5, fuel
  {
    if !rule.Builder? then ArrayNodeErrors(env, value, root, rule)
    else if fuel == 0 then Throws
    else ArrayFieldErrors(env, value, root, Lookup(env, env.builder(rule.b, value, root)), fuel - 1)
  }

  /** The rest of `validateArrayField`: a node that is not an array rule yields
      `undefined`; otherwise the whole-array errors and the per-element errors. */
  function ArrayNodeErrors(env: Env, value: Value, root: Value, rule: Rule): Outcome<Option<ErrorOfArray>>
    decreases Defined(value), value, 4, 0
  {
    var isArrayRule :- IsArrayValidationRule(rule);
    if !isArrayRule then Ok(None)
    else
      var whole :- WholeArrayErrors(env, value, root, RuleAt(env, rule, "arrayRules"));
      var item := RuleAt(env, rule, "arrayItemRule");
      var each :- if RuleTruthy(item) && value.Arr? then EachErrors(env, value, root, item, |value.elems|)
                  else Ok(NoErrorsEach);
      Ok(Some(ErrorOfArray(whole, each)))
  }

  /** The `errorsEach` list after the first `n` elements of the array `value`. */
  function EachErrors(env: Env, value: Value, root: Value, item: Rule, n: nat): Outcome<ErrorsEach>
    requires value.Arr? && n <= |value.elems|
    decreases Defined(value), value, 3, n
  {
    if n == 0 then Ok(NoErrorsEach)
    else
      EachStep(EachErrors(env, value, root, item, n - 1), ElementErrors(env, value.elems[n - 1], root, item),
               n - 1, value.elems[n - 1])
  }

  /** The error object of one element: a builder `arrayItemRule` is applied to
      `(element, root)`, a static one is used as it is. */
  function ElementErrors(env: Env, element: Value, root: Value, item: Rule): Outcome<Option<ErrorOf>>
    decreases Defined(element), element, 2, 0
  {
    var rule := if item.Builder? then Lookup(env, env.builder(item.b, element, root)) else item;
    StructErrors(env, element, root, rule)
  }
}
