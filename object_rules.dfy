/** The rule trees of the older objectValidator engine (src/objectValidator.ts). */
module ObjectRules {
  import opened Values
  import opened Types

  /** Rules are kept in a table so that a rule may refer to itself; an id missing from
      the table reads as `undefined`. */
  type RuleId = nat

  /** One entry of a validator list. */
  datatype Entry =
    | Blank                           // a falsy entry: skipped
    | NoValidate                      // a truthy entry without a truthy `validate`: skipped
    | Validator(pv: PropertyValidator) // a property validator

  /** A rule node, by the JavaScript shape `getErrorOf` tells apart. */
  datatype Rule =
    | Falsy                               // undefined, null, false, 0 or ""
    | ValidatorList(entries: seq<Entry>)  // an array of property validators
    | Record(fields: map<string, RuleId>) // any other truthy node: its own keys and their rules

  /** The rule table and `String(value)`, the text `:value` is replaced with, which the
      model leaves uninterpreted. */
  datatype Env = Env(rules: map<RuleId, Rule>, toText: Value -> string)

  function Lookup(env: Env, id: RuleId): Rule {
    if id in env.rules then env.rules[id] else Falsy
  }

  /** `rule[key]`: the rule stored under `key` in a rule object, `undefined` otherwise. */
  function RuleAt(env: Env, rule: Rule, key: string): Rule {
    if rule.Record? && key in rule.fields then Lookup(env, rule.fields[key]) else Falsy
  }

  /** The keys `for...in` with `hasOwnProperty` visits on a rule node. */
  function OwnRuleKeys(rule: Rule): set<string> {
    if rule.Record? then rule.fields.Keys else {}
  }
}
