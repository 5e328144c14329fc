/** The factories under src/propertyValidators: `arrayMinLen` and the strict
    `propertyValidator` constructor. */
module PropertyValidators {
  import opened Wrappers
  import opened Values
  import opened Text
  import Types

  /** The message a factory reports: the custom message when one is given and non-empty. */
  function ChosenMessage(errorMessage: Option<string>, default: string): string {
    if errorMessage.Some? && errorMessage.value != "" then errorMessage.value else default
  }

  /** `arrayMinLen(min, errorMessage?)`: the value must be an array of at least `min`
      elements, and `min` must be at least 1. */
  function ArrayMinLen(min: int, errorMessage: Option<string>): (pv: Types.PropertyValidator)
    ensures pv.description == "Specifies the minimum length of an array."
    ensures errorMessage.Some? && errorMessage.value != "" ==> pv.returningErrorMessage == errorMessage.value
    ensures errorMessage.None? || errorMessage.value == "" ==>
              pv.returningErrorMessage == "The minimum length for this field is " + IntToString(min) + "."
    ensures forall v, o :: pv.validate(v, o) <==> min >= 1 && v.Arr? && |v.elems| >= min
    ensures forall v, o :: !Truthy(v) ==> !pv.validate(v, o)
    ensures min < 1 ==> forall v, o :: !pv.validate(v, o)
  {
    var msg := ChosenMessage(errorMessage, "The minimum length for this field is " + IntToString(min) + ".");
    var validateFunc := (value: Value, objRef: Value) =>
      if !Truthy(value) then false
      else if min < 1 then false        // the source also logs a warning here
      else if !value.Arr? then false
      else |value.elems| >= min;
    Types.PropertyValidator("Specifies the minimum length of an array.", validateFunc, msg)
  }

  /** The text of the error thrown for a missing message, up to the message itself. */
  const MissingMessagePrefix := "You are calling the propertyValidator. The error message needs to be set. The assigned error message is '"

  const StrictDefaultDescription := "The base property validator. Use this as a custom validator."

  /** `propertyValidator(func, errorMessage, validatorDescription?)`: throws when the
      message is empty; otherwise wraps `func` unchanged. */
  function PropertyValidator(func: (Value, Value) -> bool, errorMessage: string, validatorDescription: Option<string>)
    : (r: Result<Types.PropertyValidator, string>)
    ensures r.Failure? <==> errorMessage == ""
    ensures r.Failure? ==> r.error == MissingMessagePrefix + "'"
    ensures r.Success? ==> r.value.returningErrorMessage == errorMessage
    ensures r.Success? ==> forall v, o :: r.value.validate(v, o) == func(v, o)
    ensures r.Success? && validatorDescription.Some? && validatorDescription.value != "" ==>
              r.value.description == validatorDescription.value
    ensures r.Success? && (validatorDescription.None? || validatorDescription.value == "") ==>
              r.value.description == StrictDefaultDescription
  {
    if errorMessage == "" then
      Failure(MissingMessagePrefix + errorMessage + "'")
    else
      var validateFunc := (value: Value, obj: Value) => func(value, obj);
      var description := if validatorDescription.Some? && validatorDescription.value != ""
                         then validatorDescription.value else StrictDefaultDescription;
      Success(Types.PropertyValidator(description, validateFunc, errorMessage))
  }
}
