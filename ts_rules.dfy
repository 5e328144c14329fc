/** The rule trees of the tsValidity engine (src/tsValidity/validateStruct.ts) and how
    the engine classifies a rule node by its shape. */
module TsRules {
  import opened Wrappers
  import opened Values

  /** Rules are kept in a table so that a rule may refer to itself (for example an
      `arrayItemRule` that is the enclosing rule). An id missing from the table reads as
      `undefined`. */
  type RuleId = nat
  type RuleFuncId = nat
  type BuilderId = nat

  /** One entry of a primitive rule list. */
  datatype Entry =
    | Blank                      // a falsy entry: skipped
    | RuleFunc(f: RuleFuncId)    // a function `(value, root) => {isValid, errorMessage}`
    | NotAFunction               // any other truthy entry: throws

  /** A rule node, by the JavaScript shape it has. */
  datatype Rule =
    | Nullish                             // undefined or null
    | FalsyScalar                         // false, 0 or ""
    | TruthyScalar                        // true or a non-zero number
    | PrimitiveList(entries: seq<Entry>)  // an array of rule functions
    | Builder(b: BuilderId)               // a function `(value, root) => rule`
    | Record(fields: map<string, RuleId>) // a plain object: its own keys and their rules

  /** What `validateField` reports for one rule function. */
  datatype FieldResult = FieldResult(isValid: bool, errorMessage: string)

  /** The rule table and the user-supplied functions, which the model leaves
      uninterpreted: `ruleFunc(f, value, root)` is the rule function `f` applied through
      `validateField`, `builder(b, value, root)` the rule the builder `b` returns. */
  datatype Env = Env(
    rules: map<RuleId, Rule>,
    ruleFunc: (RuleFuncId, Value, Value) -> FieldResult,
    builder: (BuilderId, Value, Value) -> RuleId)

  function Lookup(env: Env, id: RuleId): Rule {
    if id in env.rules then env.rules[id] else Nullish
  }

  predicate RuleTruthy(r: Rule) {
    !(r.Nullish? || r.FalsyScalar?)
  }

  /** The rule stored under `key` in a rule object; `undefined` for any other node. */
  function RuleAt(env: Env, rule: Rule, key: string): Rule {
    if rule.Record? && key in rule.fields then Lookup(env, rule.fields[key]) else Nullish
  }

  /** The keys `for...in` with `hasOwnProperty` visits on a rule tree. */
  function OwnRuleKeys(rule: Rule): set<string> {
    if rule.Record? then rule.fields.Keys else {}
  }

  const ArrayRuleKeys: set<string> := {"arrayRules", "arrayItemRule"}

  /** `isArrayValidationRule`: every own key of the node is `arrayRules` or
      `arrayItemRule`. `Object.keys` throws on `undefined` and `null`; the keys of a
      list are its indices, which are never among the two. */
  function IsArrayValidationRule(rule: Rule): (r: Outcome<bool>)
    ensures r.Throws? <==> rule.Nullish?
    ensures rule.Record? ==> r == Ok(rule.fields.Keys <= ArrayRuleKeys)
    ensures r.Ok? && !rule.Record? ==> (r.value <==> !rule.PrimitiveList? || |rule.entries| == 0)
  {
    match rule
    case Nullish => Throws
    case PrimitiveList(entries) => Ok(|entries| == 0)
    case Record(fields) => Ok(forall k :: k in fields ==> k in ArrayRuleKeys)
    case _ => Ok(true)
  }

  datatype PropertyType = ArrayType | ObjectType | PrimitiveType | UndefinedType

  /** `getPropertyTypeBasedOnItsRule`. */
  function GetPropertyTypeBasedOnItsRule(rule: Rule): (t: PropertyType)
    ensures t == UndefinedType <==> !RuleTruthy(rule)
    ensures t == PrimitiveType <==> rule.PrimitiveList?
    ensures t == ArrayType <==> rule.Builder? || (rule.Record? && rule.fields.Keys <= ArrayRuleKeys)
    ensures t == ObjectType <==> rule.TruthyScalar? || (rule.Record? && !(rule.fields.Keys <= ArrayRuleKeys))
    ensures rule == Record(map[]) ==> t == ArrayType
  {
    if !RuleTruthy(rule) then UndefinedType
    else if rule.PrimitiveList? then PrimitiveType
    else if rule.Record? then (if IsArrayValidationRule(rule).value then ArrayType else ObjectType)
    else if rule.Builder? then ArrayType
    else ObjectType
  }
}
