/** What the older objectValidator engine computes (src/objectValidator.ts), as
    functions. The methods in module ObjectValidator are proved to compute exactly these. */
module ObjectValidatorSpec {
  import opened Wrappers
  import opened Values
  import opened Types
  import opened Text
  import opened ObjectRules
  import opened ErrorObjects

  /** `PropertyValidationResult`; `obj` is its `object` property. */
  datatype PropertyValidationResult = PropertyValidationResult(
    obj: Value,
    propertyName: string,
    propertyValue: Value,
    errorMessage: string,
    isValid: bool)

  /** The placeholder a message template may contain. */
  const ValuePlaceholder := ":value"

  /** `validateProperty`: the validator is called with the property value and the object
      that holds it; a non-empty template has its first `:value` replaced by the text of
      the value, and an empty one is returned as it is. */
  function ValidateProperty(env: Env, propName: string, obj: Value, pv: PropertyValidator)
    : (r: PropertyValidationResult)
    ensures r.obj == obj && r.propertyName == propName && r.propertyValue == Get(obj, propName)
    ensures r.isValid == pv.validate(Get(obj, propName), obj)
    ensures pv.returningErrorMessage == "" ==> r.errorMessage == ""
    ensures (forall j: nat :: !OccursAt(pv.returningErrorMessage, ValuePlaceholder, j))
            ==> r.errorMessage == pv.returningErrorMessage
    ensures forall i: nat :: IsFirstOccurrence(pv.returningErrorMessage, ValuePlaceholder, i) ==>
              r.errorMessage == pv.returningErrorMessage[..i] + env.toText(Get(obj, propName))
                                + pv.returningErrorMessage[i + |ValuePlaceholder|..]
  {
    var value := Get(obj, propName);
    var isValid := pv.validate(value, obj);
    var errorMessage :=
      if pv.returningErrorMessage != "" then ReplaceFirst(pv.returningErrorMessage, ValuePlaceholder, env.toText(value))
      else pv.returningErrorMessage;
    PropertyValidationResult(obj, propName, value, errorMessage, isValid)
  }

  /** The entry is run: it is a property validator, and in a `validators` list it also
      has a non-empty message. */
  predicate Runs(e: Entry, needsMessage: bool) {
    e.Validator? && (!needsMessage || e.pv.returningErrorMessage != "")
  }

  /** The entry is run on `obj[key]` and rejects it. */
  predicate Fails(env: Env, key: string, obj: Value, e: Entry, needsMessage: bool) {
    Runs(e, needsMessage) && !ValidateProperty(env, key, obj, e.pv).isValid
  }

  /** The messages of the failing entries of a list, in list order. */
  function Failures(env: Env, key: string, obj: Value, entries: seq<Entry>, needsMessage: bool): seq<string> {
    if entries == [] then []
    else
      var last := entries[|entries| - 1];
      Failures(env, key, obj, entries[..|entries| - 1], needsMessage)
        + (if Fails(env, key, obj, last, needsMessage) then [ValidateProperty(env, key, obj, last.pv).errorMessage] else [])
  }

  /** The message recorded for a property whose value is `null` under a non-list rule. */
  function NullValueMessage(key: string): string {
    "Could not validate property '" + key + "', the value is null"
  }

  /** `getErrorOf`: the error object of `obj` under `rule`, `None` for `undefined`.
      Reading `object[key]` throws when `obj` is `undefined` or `null` and the rule has
      a key. */
  function ErrorObject(env: Env, obj: Value, rule: Rule): Outcome<Option<ErrorOf>>
    decreases obj, 4, 0
  {
    if OwnRuleKeys(rule) == {} then Ok(None)
    else if IsNullish(obj) then Throws
    else Assemble(KeyResults(env, obj, rule))
  }

  /** What the loop body yields for each own key of the rule. */
  function KeyResults(env: Env, obj: Value, rule: Rule): map<string, Outcome<Option<ErrorTree>>>
    requires !IsNullish(obj)
    decreases obj, 3, 0
  {
    map k | k in OwnRuleKeys(rule) :: KeyErrors(env, obj, k, RuleAt(env, rule, k))
  }

  /** The body of the `for...in` loop of `getErrorOf` for one key: the entry it leaves
      in `errors[key]`, if any. A list rule runs its validators; otherwise an array value
      takes the array branch, `null` is reported, an object or date is descended into,
      and any other value records nothing. */
  function KeyErrors(env: Env, obj: Value, key: string, rule: Rule): Outcome<Option<ErrorTree>>
    requires !IsNullish(obj)
    decreases obj, 2, 0
  {
    match rule
    case Falsy => Ok(None)
    case ValidatorList(entries) =>
      var messages := Failures(env, key, obj, entries, false);
      Ok(if messages == [] then None else Some(FieldErrors(messages)))
    case Record(_) =>
      var value := Get(obj, key);
      if value.Arr? then ArrayPropertyErrors(env, obj, key, rule)
      else if value.Null? then Ok(Some(ArrayErrors(ErrorOfArray(Some([NullValueMessage(key)]), NoErrorsEach))))
      else if value.Obj? || value.Date? then
        var error :- ErrorObject(env, value, rule);
        Ok(if error.None? then None else Some(ObjectErrors(error.value)))
      else Ok(None)
  }

  /** The messages of the rule's `validators` list for an array property; a `validators`
      node that is not a list has no entries to run. */
  function ValidatorsFailures(env: Env, obj: Value, key: string, rule: Rule): seq<string> {
    var validators := RuleAt(env, rule, "validators");
    if validators.ValidatorList? then Failures(env, key, obj, validators.entries, true) else []
  }

  /** The array branch: the rule's `validators` run on the array as a whole, and every
      element is validated against its `validationRule`. The property is recorded only
      when one of the two found something. */
  function ArrayPropertyErrors(env: Env, obj: Value, key: string, rule: Rule): Outcome<Option<ErrorTree>>
    requires Get(obj, key).Arr?
    decreases obj, 1, 0
  {
    var value := Get(obj, key);
    var messages := ValidatorsFailures(env, obj, key, rule);
    var item := RuleAt(env, rule, "validationRule");
    var each :- if item.Falsy? then Ok(NoErrorsEach) else EachErrors(env, value, item, |value.elems|);
    Ok(if messages == [] && each.NoErrorsEach? then None
       else Some(ArrayErrors(ErrorOfArray(if messages == [] then None else Some(messages), each))))
  }

  /** The element loop of the array branch over the first `n` elements. */
  function EachErrors(env: Env, value: Value, item: Rule, n: nat): Outcome<ErrorsEach>
    requires value.Arr? && n <= |value.elems|
    decreases value, 0, n
  {
    if n == 0 then Ok(NoErrorsEach)
    else EachStep(EachErrors(env, value, item, n - 1), ErrorObject(env, value.elems[n - 1], item), n - 1, value.elems[n - 1])
  }
}
