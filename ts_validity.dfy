/** The entry point of the tsValidity engine (dist/tsValidity/index.js): validates an
    object against a rule and reduces the error object to a verdict and a message. */
module TsValidity {
  import opened Wrappers
  import opened Values
  import opened Types
  import opened TsRules
  import opened TsStructSpec
  import opened ErrorObjects
  import ValidateStruct
  import TsStructLemmas

  /** `validate(object, validationRule, validationMessage?)`. The object is its own root,
      the error object is returned as it is, and the object is valid exactly when that is
      `undefined`; `None` for the messages stands for the omitted argument. */
  method Validate(env: Env, obj: Value, validationRule: Rule, validationMessage: Option<ValidationMessage>)
    returns (r: Outcome<ValidationResult>)
    ensures r.Throws? <==> StructErrors(env, obj, obj, validationRule).Throws?
    ensures r.Ok? ==>
              var messages := validationMessage.GetOr(DefaultValidationMessage);
              && r.value.errors == StructErrors(env, obj, obj, validationRule).value
              && (r.value.isValid <==> !HasTruthyEntry(r.value.errors))
              && (r.value.isValid <==> r.value.errors.None?)
              && r.value.message == if r.value.isValid then messages.okMessage else messages.errorMessage
  {
    var messages := validationMessage.GetOr(DefaultValidationMessage);
    var errors := ValidateStruct.ValidateStruct(env, obj, obj, validationRule);
    if errors.Throws? {
      return Throws;
    }
    var isValid := ScanErrors(errors.value);
    TsStructLemmas.StructErrorsShape(env, obj, obj, validationRule);
    r := Ok(ValidationResult(if isValid then messages.okMessage else messages.errorMessage, isValid, errors.value));
  }
}
