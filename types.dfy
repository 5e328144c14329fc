/** The records the validators exchange: property validators, error trees and the
    final validation result. */
module Types {
  import opened Wrappers
  import opened Values

  /** A predicate over `(value, containingObjectOrRoot)` bundled with a description and
      the message reported when it fails. */
  datatype PropertyValidator = PropertyValidator(
    description: string,
    validate: (Value, Value) -> bool,
    returningErrorMessage: string)

  /** The value an error object holds at one key. Every variant is a JavaScript array or
      object, hence truthy. */
  datatype ErrorTree =
    | FieldErrors(messages: seq<string>)            // string[]: the failures of one field
    | ArrayErrors(node: ErrorOfArray)                // { errors?, errorsEach? }
    | ObjectErrors(errors: map<string, ErrorTree>)   // the error object of a sub-object

  /** The error of an array-valued field: whole-array failures and per-element errors. */
  datatype ErrorOfArray = ErrorOfArray(errors: Option<seq<string>>, errorsEach: ErrorsEach)

  /** The `errorsEach` property of an array error: absent, or a list of element errors. */
  datatype ErrorsEach = NoErrorsEach | ErrorsEach(entries: seq<IndexedErrorOf>)

  /** The errors of one array element, with its position and the element itself. */
  datatype IndexedErrorOf = IndexedErrorOf(index: nat, errors: map<string, ErrorTree>, validatedObject: Value)

  /** An error object: its own keys are the failed fields. */
  type ErrorOf = map<string, ErrorTree>

  /** Indices strictly increase along the list. */
  predicate IndicesIncrease(each: seq<IndexedErrorOf>) {
    forall i, j :: 0 <= i < j < |each| ==> each[i].index < each[j].index
  }

  /** No container in the tree is empty: a message list has a message, an array node has
      `errors` or `errorsEach` and neither is empty, an element or sub-object error has a key. */
  predicate NonEmptyTree(t: ErrorTree) {
    match t
    case FieldErrors(ms) => |ms| > 0
    case ObjectErrors(m) => |m| > 0 && forall k :: k in m ==> NonEmptyTree(m[k])
    case ArrayErrors(node) =>
      && (node.errors.Some? || node.errorsEach.ErrorsEach?)
      && (node.errors.Some? ==> |node.errors.value| > 0)
      && (node.errorsEach.ErrorsEach? ==>
            var each := node.errorsEach.entries;
            && |each| > 0
            && IndicesIncrease(each)
            && forall i :: 0 <= i < |each| ==>
                 |each[i].errors| > 0 && forall k :: k in each[i].errors ==> NonEmptyTree(each[i].errors[k]))
  }

  /** An error object in which something failed under every key. */
  predicate NonEmptyErrorOf(m: ErrorOf) {
    |m| > 0 && forall k :: k in m ==> NonEmptyTree(m[k])
  }

  /** The scan of the result builders: some own key of the error object holds a truthy
      value. Every `ErrorTree` is an array or an object, so this is "has a key". */
  predicate HasTruthyEntry(errors: Option<ErrorOf>) {
    errors.Some? && exists k :: k in errors.value
  }

  datatype ValidationMessage = ValidationMessage(okMessage: string, errorMessage: string)

  /** The messages used when the caller passes none. */
  const DefaultValidationMessage := ValidationMessage("Good to go.", "One or more validation errors occurred.")

  datatype ValidationResult = ValidationResult(message: string, isValid: bool, errors: Option<ErrorOf>)
}
