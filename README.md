# ts-validity in Dafny

A model of the structural validator of `ts-validity`. It covers the two generations of
the engine, the result builders on top of them, and the leaf validator factories.

The validator takes an object and a rule tree shaped like that object. It walks the two
together, key by key of the rule, and returns a sparse error object that holds only what
failed. The model covers:

- **The tsValidity engine** (`validateStruct` and its helpers, and `validate`).
  - Each rule node is classified as primitive, array, object or undefined.
  - A primitive node is a list of rule functions, all run in order.
  - An array node has whole-array `arrayRules` and a per-element `arrayItemRule`. The
    array node itself and its `arrayItemRule` may be builder functions
    `(value, root) => rule`. An `arrayRules` that is not a list runs no rule.
  - An object node is descended into when the value is truthy.
  - `root` is passed unchanged to every rule function and builder.
- **The older objectValidator engine** (`validateProperty`, `getErrorOf`,
  `validateObject`).
  - The array branch is chosen because the *value* is an array.
  - Validators receive the object holding the property.
  - Messages have `:value` substituted.
  - A `null` value under a non-list rule is reported.
- **The factories** `arrayMinLen`, `minNumber`, `required`, `minLength`, `maxLength`
  and the two `propertyValidator` constructors. Each builds a `{description, validate,
  returningErrorMessage}` record.

How the model is built:

- **Values.** JavaScript values are one datatype, `Values.Value`. Numbers are
  integers, a date carries its timestamp, and an object is the map of its own
  properties.
- **Rules.** Rule trees live in a table indexed by ids, so a rule may contain itself.
- **Exceptions.** In the engines they are the `Throws` case of `Wrappers.Outcome`. The
  strict `propertyValidator` constructor returns a `Wrappers.Result` whose `Failure`
  carries the text of the error it throws.
- **User-supplied code.** Rule functions, builders, predicates and `String(value)` are
  uninterpreted total functions. The rule functions and builders of the tsValidity
  engine and `String(value)` are carried in an `Env`; the predicates of the older
  engine are the `validate` fields of its property validators.
- **Spec functions and methods.** Each engine has specification functions: `TsStructSpec`
  and `ObjectValidatorSpec`. The loops of the source are methods, in `ValidateStruct`,
  `TsValidity` and `ObjectValidator`. Each method is proved to compute its specification
  function.
- **Lemmas.** The properties are lemmas over the specification functions, in
  `TsStructLemmas`, `ObjectValidatorLemmas` and `ErrorObjects`.
- **Termination.** Recursion descends only into a field value or an array element, so
  the measure is the value being validated.

The default message of `maxLength` ends without a period, as the code writes it
(dist/validators/maxLength-validator.js:10). The test at
dist/__test__/validator_tests/maxLength-validator.spec.js:9 expects one. The model
follows the code.

## Model

| member | source | states |
|---|---|---|
| `Text.IntToString` | src/propertyValidators/arrayMinLen.ts:10 | `${n}` of an integer is non-empty and starts with `-` exactly for negative numbers |
| `Text.NatToStringRoundTrip` | src/propertyValidators/arrayMinLen.ts:10 | reading back the decimal digits the model prints for `${n}` gives `n` |
| `Text.IntToStringInjective` | src/validators/minNumber-validator.ts:13 | different bounds give different default messages |
| `Text.ReplaceFirst` | src/objectValidator.ts:16 | `replace` with a string pattern changes only the first occurrence; with no occurrence the text is unchanged |
| `TsRules.IsArrayValidationRule` | src/tsValidity/validateStruct.ts:20-26 | throws exactly on `undefined`/`null`; an object is an array rule iff its own keys are among `arrayRules`, `arrayItemRule`; a list is one iff it is empty |
| `TsRules.GetPropertyTypeBasedOnItsRule` | src/tsValidity/validateStruct.ts:35-54 | a falsy rule is undefined, a list primitive, a function array; an object is array iff every key is `arrayRules`/`arrayItemRule` (including `{}`), otherwise object |
| `ValidateStruct.ValidatePrimitiveField` | src/tsValidity/validateStruct.ts:56-83 | throws iff some entry is truthy but not a function; otherwise the failures in list order, valid iff there are none |
| `ValidateStruct.ValidateArrayField` | src/tsValidity/validateStruct.ts:85-139 | builder results are resolved on `(value, root)` and validated in place; computes the array node function |
| `ValidateStruct.RunArrayRules` | src/tsValidity/validateStruct.ts:103-110 | re-running the list once per entry leaves the result of a single pass |
| `ValidateStruct.ValidateElements` | src/tsValidity/validateStruct.ts:112-136 | the `errorsEach` loop, static or builder item rule, computes the element-loop function |
| `ValidateStruct.ValidateObjectField` | src/tsValidity/validateStruct.ts:142-178 | a falsy value is valid with no errors; otherwise valid iff the sub-object has no error object |
| `ValidateStruct.ValidateKey` | src/tsValidity/validateStruct.ts:209-244 | the `switch` of the loop body computes the per-key entry function |
| `ValidateStruct.ValidateArrayKey` | src/tsValidity/validateStruct.ts:220-234 | the `case "array"` branch records the node only for an array value with `errors` or `errorsEach` |
| `ValidateStruct.ValidateStruct` | src/tsValidity/validateStruct.ts:186-248 | the key loop with `assignErrorsIfAny` computes the assembled error object |
| `TsValidity.Validate` | dist/tsValidity/index.js:11-28 | root is the object itself; throws iff `validateStruct` does; errors verbatim; valid iff no truthy entry iff errors undefined; message ok/error with the defaults |
| `ErrorObjects.ScanErrors` | dist/tsValidity/index.js:13-22 | the scan with `break` returns true iff no own key of the error object has a truthy value |
| `ErrorObjects.AssignStep` | src/tsValidity/validateStruct.ts:189-197 | one assignment keeps the error object equal to the entries of the keys visited so far |
| `ErrorObjects.AssembleAll` | src/tsValidity/validateStruct.ts:201-247 | a loop that visited every key without a throw has built the assembled error object |
| `ErrorObjects.AssembleThrows` | src/tsValidity/validateStruct.ts:203 | a key whose body throws makes the whole loop throw |
| `ErrorObjects.CollectOk` | src/tsValidity/validateStruct.ts:113-135 | the element loop throws iff some element throws |
| `ErrorObjects.CollectSound` | src/tsValidity/validateStruct.ts:123-133 | every recorded entry carries the index, the element and the defined error object of that element |
| `ErrorObjects.CollectComplete` | src/tsValidity/validateStruct.ts:123-133 | every element with a defined error object is recorded; indices increase; `errorsEach` is absent iff no element has one |
| `ErrorObjects.CollectExact` | src/tsValidity/validateStruct.ts:112-136 | all of the above for a loop over the whole array |
| `TsStructLemmas.FailuresAppend` | src/tsValidity/validateStruct.ts:58-77 | the failures of a concatenated list are the failures of its parts, in order |
| `TsStructLemmas.FailingEntryReported` | src/tsValidity/validateStruct.ts:74-76 | every failing rule function contributes its message: no short-circuit |
| `TsStructLemmas.ReportedMessageFails` | src/tsValidity/validateStruct.ts:74-76 | every reported message comes from a failing rule function |
| `TsStructLemmas.FailuresEmptyIff` | src/tsValidity/validateStruct.ts:78-81 | a list reports nothing iff no entry fails |
| `TsStructLemmas.FailuresAtMostOnePerEntry` | src/tsValidity/validateStruct.ts:58-77 | at most one message per entry |
| `TsStructLemmas.WholeArrayErrorsIff` | src/tsValidity/validateStruct.ts:103-110 | whole-array `errors` is present iff an `arrayRules` entry fails, and is then the single-pass list |
| `TsStructLemmas.StructErrorsShape` | src/tsValidity/validateStruct.ts:186-248 | the result is undefined or has only own rule keys, each with a non-empty entry |
| `TsStructLemmas.KeyErrorsShape` | src/tsValidity/validateStruct.ts:209-244 | an assigned entry is never empty |
| `TsStructLemmas.ArrayKeyErrorsShape` | src/tsValidity/validateStruct.ts:228-233 | an assigned array node is never empty |
| `TsStructLemmas.ObjectFieldErrorsShape` | src/tsValidity/validateStruct.ts:171-177 | a sub-object error object is undefined or non-empty |
| `TsStructLemmas.ArrayFieldErrorsShape` | src/tsValidity/validateStruct.ts:85-139 | an array node keeps no empty `errors` or `errorsEach`, indices increase, element errors are non-empty |
| `TsStructLemmas.EachErrorsShape` | src/tsValidity/validateStruct.ts:112-136 | `errorsEach` after `n` elements: non-empty when present, increasing indices below `n`, non-empty element errors |
| `TsStructLemmas.ElementErrorsShape` | src/tsValidity/validateStruct.ts:116-122 | an element's error object is undefined or non-empty |
| `TsStructLemmas.StructErrorsThrowsIff` | src/tsValidity/validateStruct.ts:201-207 | throws iff the rule has a key and the object is nullish, or some key's body throws |
| `TsStructLemmas.StructErrorsEntries` | src/tsValidity/validateStruct.ts:189-197 | a rule key is present iff its body assigned something, and then holds exactly that |
| `TsStructLemmas.EachErrorsExact` | src/tsValidity/validateStruct.ts:112-136 | `errorsEach` holds exactly the elements with a defined error object, with index and element, in increasing order, and is absent when none has one |
| `TsStructLemmas.StructErrorsReadsOnlyRuleKeys` | src/tsValidity/validateStruct.ts:201-204 | two objects that agree on the rule's keys get the same result |
| `TsStructLemmas.ExtraObjectKeysIgnored` | src/tsValidity/validateStruct.ts:201-204 | object keys the rule does not name are never visited |
| `TsStructLemmas.MissingKeyChecked` | src/tsValidity/validateStruct.ts:203 | a rule key missing from the object is checked with `undefined` |
| `TsStructLemmas.AbsencePolicy` | src/tsValidity/validateStruct.ts:220-227 | a falsy value under an array or object rule, or a non-array under an array rule, records nothing |
| `TsStructLemmas.FailuresRootPassed` | src/tsValidity/validateStruct.ts:70 | every rule function of a list is called with the root unchanged: pinning the rule functions to that root and passing any other root gives the same failures |
| `TsStructLemmas.WholeArrayErrorsRootPassed` | src/tsValidity/validateStruct.ts:105 | the same for `arrayRules` |
| `TsStructLemmas.StructErrorsRootPassed` | src/tsValidity/validateStruct.ts:186-248 | at every depth rule functions and builders receive the root unchanged, and the engine uses it for nothing else |
| `TsStructLemmas.KeyErrorsRootPassed` | src/tsValidity/validateStruct.ts:214-238 | the same for one key |
| `TsStructLemmas.ArrayKeyErrorsRootPassed` | src/tsValidity/validateStruct.ts:229 | the same for the array branch |
| `TsStructLemmas.ObjectFieldErrorsRootPassed` | src/tsValidity/validateStruct.ts:172 | the same for a sub-object |
| `TsStructLemmas.ArrayFieldErrorsRootPassed` | src/tsValidity/validateStruct.ts:89-93 | an array-node builder is applied to `(value, root)` with the root unchanged |
| `TsStructLemmas.ArrayNodeRootPassed` | src/tsValidity/validateStruct.ts:95-138 | the same for a resolved array node |
| `TsStructLemmas.EachErrorsRootPassed` | src/tsValidity/validateStruct.ts:116-122 | item builders get `(element, root)` with the root unchanged |
| `TsStructLemmas.ElementErrorsRootPassed` | src/tsValidity/validateStruct.ts:116-121 | the same for one element |
| `TsStructLemmas.EachErrorsThrowsFrom` | src/tsValidity/validateStruct.ts:113-122 | once an element throws, the whole loop throws |
| `ObjectValidatorSpec.ValidateProperty` | src/objectValidator.ts:10-28 | `validate(value, containingObject)`; empty template unchanged; first `:value` replaced by the value's text; no placeholder leaves the template |
| `ObjectValidator.ValidateValidators` | src/objectValidator.ts:53-78 | the list loop skips falsy entries, entries without `validate` and, in `validators`, entries without a message; pushes failures in order |
| `ObjectValidator.ValidateElements` | src/objectValidator.ts:119-141 | the `validationRule` loop computes the element-loop function |
| `ObjectValidator.ValidateArrayProperty` | src/objectValidator.ts:83-143 | the array branch, with `errors[key]` created on demand, computes the array entry function |
| `ObjectValidator.ValidateKey` | src/objectValidator.ts:43-173 | the loop body for one key: list, array, `null`, sub-object or nothing |
| `ObjectValidator.GetErrorOf` | src/objectValidator.ts:36-177 | the key loop computes the assembled error object |
| `ObjectValidator.ValidateObject` | src/objectValidator.ts:193-212 | throws iff `getErrorOf` does; errors verbatim; valid iff no truthy entry iff errors undefined; message ok/error with the defaults |
| `ObjectValidatorLemmas.FailuresAppend` | src/objectValidator.ts:53-78 | the failures of a concatenated list are the failures of its parts, in order |
| `ObjectValidatorLemmas.SkippedEntryIgnored` | src/objectValidator.ts:55-62 | an entry that is not run can be dropped without changing the messages |
| `ObjectValidatorLemmas.FailingEntryReported` | src/objectValidator.ts:68-77 | every failing validator contributes its message |
| `ObjectValidatorLemmas.ReportedMessageFails` | src/objectValidator.ts:68-77 | every message comes from a failing validator |
| `ObjectValidatorLemmas.FailuresEmptyIff` | src/objectValidator.ts:53-78 | a list reports nothing iff no run entry fails |
| `ObjectValidatorLemmas.FailuresAtMostOnePerEntry` | src/objectValidator.ts:53-78 | at most one message per entry |
| `ObjectValidatorLemmas.ErrorObjectShape` | src/objectValidator.ts:36-177 | the result is undefined or has only own rule keys, each with a non-empty entry |
| `ObjectValidatorLemmas.KeyErrorsShape` | src/objectValidator.ts:43-173 | a recorded entry is never empty |
| `ObjectValidatorLemmas.ArrayPropertyErrorsShape` | src/objectValidator.ts:83-143 | a recorded array entry is never empty |
| `ObjectValidatorLemmas.EachErrorsShape` | src/objectValidator.ts:119-141 | `errorsEach` after `n` elements: non-empty when present, increasing indices below `n`, non-empty element errors |
| `ObjectValidatorLemmas.ErrorObjectThrowsIff` | src/objectValidator.ts:41-45 | throws iff the rule has a key and the object is nullish, or some key's body throws |
| `ObjectValidatorLemmas.ErrorObjectEntries` | src/objectValidator.ts:41-175 | a rule key is present iff its body recorded something, and then holds exactly that |
| `ObjectValidatorLemmas.ListRuleReported` | src/objectValidator.ts:51-80 | a list rule's key is present iff a validator fails, holding the failures in list order |
| `ObjectValidatorLemmas.NullValueReported` | src/objectValidator.ts:145-160 | a `null` value under a non-list rule gives `{errors: ["Could not validate property '<key>', the value is null"]}` |
| `ObjectValidatorLemmas.ScalarValueIgnored` | src/objectValidator.ts:145-146 | an undefined, boolean, number or string value under a non-list rule records nothing |
| `ObjectValidatorLemmas.ArrayBranchByValue` | src/objectValidator.ts:83-84 | under a non-list rule an array value takes the array branch, whatever the rule's keys |
| `ObjectValidatorLemmas.SubObjectDescended` | src/objectValidator.ts:162-172 | an object value is validated against the same rule and recorded iff its error object is defined |
| `ObjectValidatorLemmas.ArrayPropertyErrorsIff` | src/objectValidator.ts:83-141 | recorded iff `validators` failed or an element has errors; `errors` present iff a run `validators` entry fails; `errorsEach` is the element loop's |
| `ObjectValidatorLemmas.EachErrorsExact` | src/objectValidator.ts:119-141 | `errorsEach` holds exactly the elements with a defined error object, with index and element, in increasing order |
| `ObjectValidatorLemmas.EachErrorsThrowsFrom` | src/objectValidator.ts:120-122 | once an element throws, the whole loop throws |
| `PropertyValidators.ArrayMinLen` | src/propertyValidators/arrayMinLen.ts:8-38 | default or non-empty custom message; valid iff `min >= 1` and the value is an array of at least `min` elements; falsy fails; `min < 1` fails everything |
| `PropertyValidators.PropertyValidator` | src/propertyValidators/propertyValidator.ts:9-24 | throws iff the message is empty; keeps the message; description or its default; `validate` is `func` |
| `Validators.MinNumber` | src/validators/minNumber-validator.ts:11-33 | default or custom message; falsy (including 0) fails; a truthy value is valid iff it converts to a number `>= min` (a number, `true`, a date); a number is valid iff it is non-zero and `>= min`; the object is ignored |
| `Validators.Required` | src/validators/required-validator.ts:10-29 | default or custom message; fails exactly on undefined, null, 0, "" and false |
| `Validators.PropertyValidator` | src/validators/property-validator.ts:11-26 | never fails to build; fixed description; keeps the message; `validate` is `func` |
| `Validators.MinLength` | dist/validators/minLength-validator.js:9-35 | default or custom message; valid iff `min >= 1` and an array of at least `min` elements |
| `Validators.MaxLength` | dist/validators/maxLength-validator.js:9-31 | default message without a period, or custom; valid iff truthy, `max >= 0` and it has a `length` of at most `max`; an empty array passes; a string is measured in UTF-16 code units |
| `Values.Utf16Length` | dist/validators/maxLength-validator.js:22 | a string's `length` lies between its number of characters and twice that, and equals it iff no character is outside the Basic Multilingual Plane |

## Left out

- Index and `length` lookups are not modelled under property access. In the model,
  `value[key]` on an array or a string is `undefined`.
- In both engines, a list used as a whole rule tree is treated as having no keys. This
  covers a list given as `arrayItemRule`, as `validationRule`, or as the top-level
  rule. In JavaScript, `for...in` would visit its indices.
- In the engines, which exception is thrown and its text are not modelled; only whether
  the call throws.
- The order of the keys is not modelled. A result that throws at some key throws
  whatever the key order, and every other result is independent of that order.
- NaN, infinities, fractional numbers, date text and the string-to-number conversion of
  relational comparisons are not modelled. Numbers are exact unbounded integers, so
  the rounding of doubles above 2^53 is not modelled either.
- `Validators.MinNumber`: a truthy string, array or object never converts to a number
  here, so it always fails. In JavaScript `value >= min` converts it first: `"5"` is
  valid for `minNumber(3)`.
- `Text.IntToString`: prints every integer as plain decimal digits. JavaScript prints a
  number of magnitude 1e21 or more in exponent form (`1e+21`). So the default messages
  of `arrayMinLen`, `minNumber`, `minLength` and `maxLength` differ from the program
  for such bounds.
- `Text.NatToStringRoundTrip`: holds for the digits the model prints. For bounds of
  magnitude 1e21 or more JavaScript does not print plain digits.
- `String(value)` is an uninterpreted `toText`. The `$` patterns of
  `String.prototype.replace` are not modelled.
- `console.warn` and `console.error` calls are not modelled. They have no effect on
  results.
- `validateField` is not part of this model. A rule function applied through it is the
  uninterpreted `ruleFunc(f, value, root)`, giving `{isValid, errorMessage}`.
- Rule functions, predicates and builders are assumed total and pure.
- `ValidateStruct.ValidateArrayField`: a chain of builder results is resolved at most `MaxBuilderChain`
  (1000) times. Past that point the model throws, standing in for the stack overflow of
  an endless chain.
- `ValidateStruct.ValidateStruct`, `ObjectValidator.GetErrorOf`: the throw of
  `object[key]` on a nullish object is raised before the loop. The source raises it at
  the first key, and the outcome is the same.
- `ObjectValidator.ValidateKey`: the incremental `errors[key]` updates of the source
  are collected per key and assigned once. The resulting error object is the same.
- `ObjectValidatorSpec.ValidateProperty` does not throw on a nullish object. It is only
  ever called after `object[key]` has been read.
- A missing message template (`undefined`) is modelled as the empty string.
- A partial custom message object (only `okMessage`, say) is not modelled. The
  argument is either omitted or complete.
- `TsStructLemmas.EachErrorsExact`, `ObjectValidatorLemmas.EachErrorsExact`: the
  per-element results are stated through the ghost list `ElementOutcomes` of element
  error objects.
- Cyclic object graphs are not representable. Values are finite trees.
