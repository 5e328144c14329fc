/** The older objectValidator engine as the source writes it (src/objectValidator.ts):
    `getErrorOf` creates the error object and its entries on demand and pushes messages
    and element errors into them in nested loops. The branches of the loop body are
    separate methods here; each method is proved to compute the matching function of
    ObjectValidatorSpec. */
module ObjectValidator {
  import opened Wrappers
  import opened Values
  import opened Types
  import opened ObjectRules
  import opened ObjectValidatorSpec
  import opened ErrorObjects
  import ObjectValidatorLemmas

  /** The loop over a validator list: falsy entries and entries without `validate` are
      skipped, and so are entries without a message when `needsMessage` holds; the
      message of every failing validator is pushed, in list order. */
  method ValidateValidators(env: Env, key: string, obj: Value, entries: seq<Entry>, needsMessage: bool)
    returns (messages: seq<string>)
    ensures messages == Failures(env, key, obj, entries, needsMessage)
  {
    messages := [];
    for index := 0 to |entries|
      invariant messages == Failures(env, key, obj, entries[..index], needsMessage)
    {
      assert entries[..index + 1][..index] == entries[..index];
      var propValidator := entries[index];
      if propValidator.Blank? {
        continue;
      }
      if propValidator.NoValidate? || (needsMessage && propValidator.pv.returningErrorMessage == "") {
        continue;
      }
      var propValidationResult := ValidateProperty(env, key, obj, propValidator.pv);
      if !propValidationResult.isValid {
        messages := messages + [propValidationResult.errorMessage];
      }
    }
    assert entries[..|entries|] == entries;
  }

  /** The `validationRule` loop of the array branch: the error object of every element,
      pushed to `errorsEach` with its index and the element when it is defined. */
  method ValidateElements(env: Env, obj: Value, key: string, item: Rule) returns (r: Outcome<ErrorsEach>)
    requires Get(obj, key).Arr?
    ensures r == EachErrors(env, Get(obj, key), item, |Get(obj, key).elems|)
    decreases obj, 0
  {
    var value := Get(obj, key);
    var errorsEach := NoErrorsEach;
    for index := 0 to |value.elems|
      invariant EachErrors(env, value, item, index) == Ok(errorsEach)
    {
      var element := value.elems[index];
      var error := GetErrorOf(env, element, item);
      if error.Throws? {
        ObjectValidatorLemmas.EachErrorsThrowsFrom(env, value, item, index + 1, |value.elems|);
        return Throws;
      }
      if error.value.Some? {
        if errorsEach.NoErrorsEach? {
          errorsEach := ErrorsEach([]);
        }
        errorsEach := ErrorsEach(errorsEach.entries + [IndexedErrorOf(index, error.value.value, element)]);
      }
    }
    return Ok(errorsEach);
  }

  /** The array branch of the loop body, taken when the property value is an array:
      `errors[key]` is created at the first failure of `validators` or the first element
      with errors. */
  method ValidateArrayProperty(env: Env, obj: Value, key: string, rule: Rule) returns (r: Outcome<Option<ErrorTree>>)
    requires Get(obj, key).Arr?
    ensures r == ArrayPropertyErrors(env, obj, key, rule)
    decreases obj, 1
  {
    var node: Option<ErrorOfArray> := None;
    var validators := RuleAt(env, rule, "validators");
    if validators.ValidatorList? {
      var messages := ValidateValidators(env, key, obj, validators.entries, true);
      if messages != [] {
        node := Some(ErrorOfArray(Some(messages), NoErrorsEach));
      }
    }
    var item := RuleAt(env, rule, "validationRule");
    var each := Ok(NoErrorsEach);
    if !item.Falsy? {
      each := ValidateElements(env, obj, key, item);
    }
    if each.Throws? {
      r := Throws;
    } else {
      if each.value.ErrorsEach? {
        node := Some(ErrorOfArray(if node.Some? then node.value.errors else None, each.value));
      }
      r := Ok(if node.Some? then Some(ArrayErrors(node.value)) else None);
    }
  }

  /** The body of the `for...in` loop of `getErrorOf` for one key. `Ok(None)` is
      "nothing recorded". */
  method ValidateKey(env: Env, obj: Value, key: string, rule: Rule) returns (r: Outcome<Option<ErrorTree>>)
    requires !IsNullish(obj)
    ensures r == KeyErrors(env, obj, key, rule)
    decreases obj, 2
  {
    r := Ok(None);
    var value := Get(obj, key);
    if rule.Falsy? {
      // `continue`
    } else if rule.ValidatorList? {
      var messages := ValidateValidators(env, key, obj, rule.entries, false);
      if messages != [] {
        r := Ok(Some(FieldErrors(messages)));
      }
    } else if value.Arr? {
      r := ValidateArrayProperty(env, obj, key, rule);
    } else if IsTypeofObject(value) {
      if !Truthy(value) {
        r := Ok(Some(ArrayErrors(ErrorOfArray(Some([NullValueMessage(key)]), NoErrorsEach))));
      } else {
        var error := GetErrorOf(env, value, rule);
        if error.Throws? {
          r := Throws;
        } else if error.value.Some? {
          r := Ok(Some(ObjectErrors(error.value.value)));
        }
      }
    }
  }

  /** `getErrorOf`: the `for...in` loop over the own keys of the rule, creating the
      error object at the first entry. */
  method GetErrorOf(env: Env, obj: Value, validationRule: Rule) returns (r: Outcome<Option<ErrorOf>>)
    ensures r == ErrorObject(env, obj, validationRule)
    decreases obj, 4
  {
    var errors: Option<ErrorOf> := None;
    var keys := OwnRuleKeys(validationRule);
    if keys != {} && IsNullish(obj) {
      // `object[key]` on undefined or null, at the first key
      return Throws;
    }
    ghost var results := if IsNullish(obj) then map[] else KeyResults(env, obj, validationRule);
    var remaining := keys;
    ghost var visited: set<string> := {};
    while remaining != {}
      invariant remaining + visited == keys && remaining !! visited
      invariant forall k :: k in visited ==> results[k].Ok?
      invariant errors == AsErrorObject(Entries(results, visited))
      decreases remaining
    {
      var key :| key in remaining;
      var outcome := ValidateKey(env, obj, key, RuleAt(env, validationRule, key));
      assert results[key] == outcome;
      if outcome.Throws? {
        AssembleThrows(results, key);
        return Throws;
      }
      var entry := outcome.value;
      AssignStep(results, visited, key, errors, entry);
      if entry.Some? {
        var current := if errors.Some? then errors.value else map[];
        errors := Some(current[key := entry.value]);
      }
      remaining := remaining - {key};
      visited := visited + {key};
    }
    if keys != {} {
      AssembleAll(results, visited, errors);
    }
    return Ok(errors);
  }

  /** `validateObject`: the error object, and a scan of its own keys that clears
      `isValid` at the first truthy entry. `None` for the messages stands for the
      omitted argument. */
  method ValidateObject(env: Env, obj: Value, validationRule: Rule, validationMessage: Option<ValidationMessage>)
    returns (r: Outcome<ValidationResult>)
    ensures r.Throws? <==> ErrorObject(env, obj, validationRule).Throws?
    ensures r.Ok? ==>
              var messages := validationMessage.GetOr(DefaultValidationMessage);
              && r.value.errors == ErrorObject(env, obj, validationRule).value
              && (r.value.isValid <==> !HasTruthyEntry(r.value.errors))
              && (r.value.isValid <==> r.value.errors.None?)
              && r.value.message == if r.value.isValid then messages.okMessage else messages.errorMessage
  {
    var messages := validationMessage.GetOr(DefaultValidationMessage);
    var errors := GetErrorOf(env, obj, validationRule);
    if errors.Throws? {
      return Throws;
    }
    var isValid := ScanErrors(errors.value);
    ObjectValidatorLemmas.ErrorObjectShape(env, obj, validationRule);
    r := Ok(ValidationResult(if isValid then messages.okMessage else messages.errorMessage, isValid, errors.value));
  }
}
