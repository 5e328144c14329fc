/** The tsValidity engine as the source writes it (src/tsValidity/validateStruct.ts):
    loops that build the error lists and objects step by step. Each method is proved to
    compute the matching function of TsStructSpec. */
module ValidateStruct {
  import opened Wrappers
  import opened Values
  import opened Types
  import opened TsRules
  import opened TsStructSpec
  import opened ErrorObjects
  import TsStructLemmas

  /** `PrimitiveFieldValidationResult`. */
  datatype PrimitiveFieldResult = PrimitiveFieldResult(errors: seq<string>, isValid: bool)

  /** `ObjectFieldValidationResult`; `errors` is `undefined` when `None`. */
  datatype ObjectFieldResult = ObjectFieldResult(isValid: bool, errors: Option<ErrorOf>)

  /** `validatePrimitiveField`: runs every entry of the list on `obj[key]`, in order. */
  method ValidatePrimitiveField(env: Env, key: string, obj: Value, root: Value, rule: seq<Entry>)
    returns (r: Outcome<PrimitiveFieldResult>)
    ensures r.Throws? <==> PrimitiveFieldErrors(env, Get(obj, key), root, rule).Throws?
    ensures r.Ok? ==> var msgs := PrimitiveFieldErrors(env, Get(obj, key), root, rule).value;
                      r.value == PrimitiveFieldResult(msgs, msgs == [])
  {
    var value := Get(obj, key);
    var fieldErrors: seq<string> := [];
    for index := 0 to |rule|
      invariant fieldErrors == Failures(env, value, root, rule[..index])
      invariant !HasNonFunction(rule[..index])
    {
      assert rule[..index + 1][..index] == rule[..index];
      var propertyRuleFunc := rule[index];
      if propertyRuleFunc.Blank? {
        continue;
      }
      if propertyRuleFunc.NotAFunction? {
        return Throws;
      }
      var propValidationResult := env.ruleFunc(propertyRuleFunc.f, value, root);
      if !propValidationResult.isValid {
        fieldErrors := fieldErrors + [propValidationResult.errorMessage];
      }
    }
    assert rule[..|rule|] == rule;
    return Ok(PrimitiveFieldResult(fieldErrors, |fieldErrors| == 0));
  }

  /** `validateArrayField`. `fuel` is the depth of builder results the call stack has
      room for. */
  method ValidateArrayField(env: Env, key: string, obj: Value, root: Value, rule: Rule, fuel: nat)
    returns (r: Outcome<Option<ErrorOfArray>>)
    ensures r == ArrayFieldErrors(env, Get(obj, key), root, rule, fuel)
    decreases obj, 3, fuel
  {
    var value := Get(obj, key);
    if rule.Builder? {
      if fuel == 0 {
        return Throws;
      }
      var builtRule := Lookup(env, env.builder(rule.b, value, root));
      r := ValidateArrayField(env, key, obj, root, builtRule, fuel - 1);
      return;
    }
    var isArrayRule :- IsArrayValidationRule(rule);
    if !isArrayRule {
      return Ok(None);
    }
    var errors :- RunArrayRules(env, key, obj, root, RuleAt(env, rule, "arrayRules"));
    var errorsEach := NoErrorsEach;
    var item := RuleAt(env, rule, "arrayItemRule");
    if RuleTruthy(item) && value.Arr? {
      errorsEach :- ValidateElements(env, key, obj, root, item);
    }
    return Ok(Some(ErrorOfArray(errors, errorsEach)));
  }

  /** The `arrayRules` part of `validateArrayField`: the whole list is run once per
      entry, each pass overwriting `errors`; every pass gives the same result. */
  method RunArrayRules(env: Env, key: string, obj: Value, root: Value, arrayRules: Rule)
    returns (r: Outcome<Option<seq<string>>>)
    ensures r == WholeArrayErrors(env, Get(obj, key), root, arrayRules)
  {
    var errors: Option<seq<string>> := None;
    if arrayRules.PrimitiveList? {
      for index := 0 to |arrayRules.entries|
        invariant index > 0 ==> WholeArrayErrors(env, Get(obj, key), root, arrayRules) == Ok(errors)
        invariant index == 0 ==> errors == None
      {
        var result :- ValidatePrimitiveField(env, key, obj, root, arrayRules.entries);
        if !result.isValid {
          errors := Some(result.errors);
        }
      }
    }
    return Ok(errors);
  }

  /** The `arrayItemRule` part of `validateArrayField`: each element validated against
      the item rule, or against what a builder item rule returns for it. */
  method ValidateElements(env: Env, key: string, obj: Value, root: Value, item: Rule)
    returns (r: Outcome<ErrorsEach>)
    requires Get(obj, key).Arr?
    ensures r == EachErrors(env, Get(obj, key), root, item, |Get(obj, key).elems|)
    decreases obj, 1, 0
  {
    var value := Get(obj, key);
    var errorsEach := NoErrorsEach;
    for index := 0 to |value.elems|
      invariant EachErrors(env, value, root, item, index) == Ok(errorsEach)
    {
      var element := value.elems[index];
      var e: Outcome<Option<ErrorOf>>;
      if item.Builder? {
        var validationRule := Lookup(env, env.builder(item.b, element, root));
        e := ValidateStruct(env, element, root, validationRule);
      } else {
        e := ValidateStruct(env, element, root, item);
      }
      if e.Throws? {
        TsStructLemmas.EachErrorsThrowsFrom(env, value, root, item, index + 1, |value.elems|);
        return Throws;
      }
      var error := e.value;
      if error.Some? {
        if errorsEach.NoErrorsEach? {
          errorsEach := ErrorsEach([]);
        }
        errorsEach := ErrorsEach(errorsEach.entries + [IndexedErrorOf(index, error.value, element)]);
      }
    }
    return Ok(errorsEach);
  }

  /** `validateObjectField`: a falsy field is left silently valid. */
  method ValidateObjectField(env: Env, key: string, obj: Value, root: Value, rule: Rule)
    returns (r: Outcome<ObjectFieldResult>)
    ensures r.Throws? <==> ObjectFieldErrors(env, Get(obj, key), root, rule).Throws?
    ensures r.Ok? ==> var e := ObjectFieldErrors(env, Get(obj, key), root, rule).value;
                      r.value == ObjectFieldResult(e.None?, e)
    decreases obj, 3, 0
  {
    var value := Get(obj, key);
    if !Truthy(value) {
      return Ok(ObjectFieldResult(true, None));
    }
    var error :- ValidateStruct(env, value, root, rule);
    return Ok(ObjectFieldResult(error.None?, error));
  }

  /** The body of the `for...in` loop of `validateStruct` for one key: the `switch` on
      the kind of the key's rule. `Ok(None)` is "nothing assigned". */
  method ValidateKey(env: Env, obj: Value, root: Value, key: string, rule: Rule)
    returns (r: Outcome<Option<ErrorTree>>)
    ensures r == KeyErrors(env, Get(obj, key), root, rule)
    decreases obj, 5, 0
  {
    r := Ok(None);
    match GetPropertyTypeBasedOnItsRule(rule) {
      case PrimitiveType =>
        var validationResult := ValidatePrimitiveField(env, key, obj, root, rule.entries);
        if validationResult.Throws? {
          r := Throws;
        } else if !validationResult.value.isValid {
          r := Ok(Some(FieldErrors(validationResult.value.errors)));
        }
      case ArrayType =>
        r := ValidateArrayKey(env, obj, root, key, rule);
      case ObjectType =>
        var error := ValidateObjectField(env, key, obj, root, rule);
        if error.Throws? {
          r := Throws;
        } else if !error.value.isValid {
          r := Ok(Some(ObjectErrors(error.value.errors.value)));
        }
      case UndefinedType =>
    }
  }

  /** The `case "array"` branch of the `switch`. A falsy value goes to
      `validateObjectField`, which reports it valid, so nothing is assigned. */
  method ValidateArrayKey(env: Env, obj: Value, root: Value, key: string, rule: Rule)
    returns (r: Outcome<Option<ErrorTree>>)
    ensures r == ArrayKeyErrors(env, Get(obj, key), root, rule)
    decreases obj, 4, 0
  {
    var value := Get(obj, key);
    r := Ok(None);
    if Truthy(value) && value.Arr? {
      var result := ValidateArrayField(env, key, obj, root, rule, MaxBuilderChain);
      if result.Throws? {
        r := Throws;
      } else if result.value.Some? && (result.value.value.errors.Some? || result.value.value.errorsEach.ErrorsEach?) {
        r := Ok(Some(ArrayErrors(result.value.value)));
      }
    }
  }

  /** `validateStruct`: the `for...in` loop over the own keys of the rule, with
      `assignErrorsIfAny` creating the error object on the first failure. */
  method ValidateStruct(env: Env, obj: Value, root: Value, validationRule: Rule)
    returns (r: Outcome<Option<ErrorOf>>)
    ensures r == StructErrors(env, obj, root, validationRule)
    decreases obj, 7, 0
  {
    var errors: Option<ErrorOf> := None;
    var keys := OwnRuleKeys(validationRule);
    if keys != {} && IsNullish(obj) {
      // `object[key]` on undefined or null, at the first key
      return Throws;
    }
    ghost var results := if IsNullish(obj) then map[] else KeyResults(env, obj, root, validationRule);
    var remaining := keys;
    ghost var visited: set<string> := {};
    while remaining != {}
      invariant remaining + visited == keys && remaining !! visited
      invariant forall k :: k in visited ==> results[k].Ok?
      invariant errors == AsErrorObject(Entries(results, visited))
      decreases remaining
    {
      var key :| key in remaining;
      var outcome := ValidateKey(env, obj, root, key, RuleAt(env, validationRule, key));
      assert results[key] == outcome;
      if outcome.Throws? {
        AssembleThrows(results, key);
        return Throws;
      }
      var entry := outcome.value;
      AssignStep(results, visited, key, errors, entry);
      if entry.Some? {
        // `assignErrorsIfAny`
        var current := if errors.Some? then errors.value else map[];
        errors := Some(current[key := entry.value]);
      }
      remaining := remaining - {key};
      visited := visited + {key};
    }
    if keys != {} {
      AssembleAll(results, visited, errors);
    }
    return Ok(errors);
  }
}
