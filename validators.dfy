/** The factories under src/validators and dist/validators: `minNumber`, `required`,
    the permissive `propertyValidator`, `minLength` and `maxLength`. */
module Validators {
  import opened Wrappers
  import opened Values
  import opened Text
  import Types
  import PropertyValidators

  /** `minNumber(min, errorMessage?)`: the value must be truthy and compare `>= min`. */
  function MinNumber(min: int, errorMessage: Option<string>): (pv: Types.PropertyValidator)
    ensures pv.description == "Spesify the minimum value of number rule."
    ensures errorMessage.Some? && errorMessage.value != "" ==> pv.returningErrorMessage == errorMessage.value
    ensures errorMessage.None? || errorMessage.value == "" ==>
              pv.returningErrorMessage == "The minimum value for this field is " + IntToString(min) + "."
    ensures forall v, o :: !Truthy(v) ==> !pv.validate(v, o)
    ensures forall n: int, o :: pv.validate(Num(n), o) <==> n != 0 && n >= min
    ensures forall v, o :: Truthy(v) ==> (pv.validate(v, o) <==> NumberOf(v).Some? && NumberOf(v).value >= min)
    ensures forall v, o1, o2 :: pv.validate(v, o1) == pv.validate(v, o2)
  {
    var msg := PropertyValidators.ChosenMessage(errorMessage, "The minimum value for this field is " + IntToString(min) + ".");
    var validatorFunc := (value: Value, objRef: Value) =>
      if !Truthy(value) then false
      else NumberOf(value).Some? && NumberOf(value).value >= min;
    Types.PropertyValidator("Spesify the minimum value of number rule.", validatorFunc, msg)
  }

  /** `required(errorMessage?)`: the value must be truthy. */
  function Required(errorMessage: Option<string>): (pv: Types.PropertyValidator)
    ensures pv.description == "Validates if a property value is required"
    ensures errorMessage.Some? && errorMessage.value != "" ==> pv.returningErrorMessage == errorMessage.value
    ensures errorMessage.None? || errorMessage.value == "" ==> pv.returningErrorMessage == "This field is required."
    ensures forall v, o :: !pv.validate(v, o) <==> v in {Undefined, Null, Num(0), Str(""), Bool(false)}
  {
    var msg := PropertyValidators.ChosenMessage(errorMessage, "This field is required.");
    var validatorFunc := (value: Value, objRef: Value) => if !Truthy(value) then false else true;
    Types.PropertyValidator("Validates if a property value is required", validatorFunc, msg)
  }

  const PermissiveDescription := "The base property validator. Use this as a custom validator."

  /** The permissive `propertyValidator(func, errorMessage)`: an empty message is only
      logged, and a validator is returned all the same. */
  function PropertyValidator(func: (Value, Value) -> bool, errorMessage: string): (pv: Types.PropertyValidator)
    ensures pv.description == PermissiveDescription
    ensures pv.returningErrorMessage == errorMessage
    ensures forall v, o :: pv.validate(v, o) == func(v, o)
  {
    var validatorFunc := (value: Value, obj: Value) => func(value, obj);
    Types.PropertyValidator(PermissiveDescription, validatorFunc, errorMessage)
  }

  /** `minLength(min, errorMessage?)`: the value must be an array of at least `min`
      elements, and `min` must be at least 1. */
  function MinLength(min: int, errorMessage: Option<string>): (pv: Types.PropertyValidator)
    ensures pv.description == "Specifies the minimum length of an array."
    ensures errorMessage.Some? && errorMessage.value != "" ==> pv.returningErrorMessage == errorMessage.value
    ensures errorMessage.None? || errorMessage.value == "" ==>
              pv.returningErrorMessage == "The minimum length for this field is " + IntToString(min) + "."
    ensures forall v, o :: pv.validate(v, o) <==> min >= 1 && v.Arr? && |v.elems| >= min
  {
    var msg := PropertyValidators.ChosenMessage(errorMessage, "The minimum length for this field is " + IntToString(min) + ".");
    var validateFunc := (value: Value, objRef: Value) =>
      if !Truthy(value) then false
      else if min < 1 then false        // the source also logs an error here
      else if !value.Arr? then false
      else |value.elems| >= min;
    Types.PropertyValidator("Specifies the minimum length of an array.", validateFunc, msg)
  }

  /** `maxLength(max, errorMessage?)`: the value must be truthy and have a `length` of at
      most `max`; it need not be an array. */
  function MaxLength(max: int, errorMessage: Option<string>): (pv: Types.PropertyValidator)
    ensures pv.description == "Specifies the rule of the maximum number of element to exist in an array."
    ensures errorMessage.Some? && errorMessage.value != "" ==> pv.returningErrorMessage == errorMessage.value
    ensures errorMessage.None? || errorMessage.value == "" ==>
              pv.returningErrorMessage == "The maximum length for this field is " + IntToString(max)
    ensures forall v, o :: pv.validate(v, o) <==>
              Truthy(v) && max >= 0 && LengthOf(v).Some? && LengthOf(v).value <= max
    ensures forall es: seq<Value>, o :: pv.validate(Arr(es), o) <==> 0 <= max && |es| <= max
    ensures forall s: string, o :: s != "" ==> (pv.validate(Str(s), o) <==> 0 <= max && Utf16Length(s) <= max)
  {
    var msg := PropertyValidators.ChosenMessage(errorMessage, "The maximum length for this field is " + IntToString(max));
    var validatorFunc := (value: Value, objRef: Value) =>
      if !Truthy(value) then false
      else if max < 0 then false        // the source also logs an error here
      else LengthOf(value).Some? && LengthOf(value).value <= max;
    Types.PropertyValidator("Specifies the rule of the maximum number of element to exist in an array.", validatorFunc, msg)
  }
}
