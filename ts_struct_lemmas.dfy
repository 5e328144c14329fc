/** Properties of the tsValidity engine, stated over the functions of TsStructSpec. */
module TsStructLemmas {
  import opened Wrappers
  import opened Values
  import opened Types
  import opened TsRules
  import opened TsStructSpec
  import opened ErrorObjects

  // ---------------------------------------------------------------------------
  // Primitive rule lists

  /** The failures of a concatenation are the failures of each part, in order. */
  lemma {:induction false} FailuresAppend(env: Env, value: Value, root: Value, a: seq<Entry>, b: seq<Entry>)
    ensures Failures(env, value, root, a + b) == Failures(env, value, root, a) + Failures(env, value, root, b)
    decreases |b|
  {
    if b == [] {
      assert a + b == a;
    } else {
      var b' := b[..|b| - 1];
      assert (a + b)[..|a + b| - 1] == a + b';
      FailuresAppend(env, value, root, a, b');
    }
  }

  /** Every failing entry contributes its message: no short-circuit. */
  lemma {:induction false} FailingEntryReported(env: Env, value: Value, root: Value, entries: seq<Entry>, i: nat)
    requires i < |entries| && Fails(env, value, root, entries[i])
    ensures env.ruleFunc(entries[i].f, value, root).errorMessage in Failures(env, value, root, entries)
  {
    assert entries == entries[..i] + [entries[i]] + entries[i + 1..];
    FailuresAppend(env, value, root, entries[..i] + [entries[i]], entries[i + 1..]);
    FailuresAppend(env, value, root, entries[..i], [entries[i]]);
    assert Failures(env, value, root, [entries[i]]) == [env.ruleFunc(entries[i].f, value, root).errorMessage] by {
      assert [entries[i]][..0] == [];
    }
  }

  /** Every reported message is the message of some failing entry. */
  lemma {:induction false} ReportedMessageFails(env: Env, value: Value, root: Value, entries: seq<Entry>, msg: string)
    requires msg in Failures(env, value, root, entries)
    ensures exists i :: 0 <= i < |entries| && Fails(env, value, root, entries[i])
                        && env.ruleFunc(entries[i].f, value, root).errorMessage == msg
    decreases |entries|
  {
    var n := |entries| - 1;
    var prefix := entries[..n];
    if msg in Failures(env, value, root, prefix) {
      ReportedMessageFails(env, value, root, prefix, msg);
      var i :| 0 <= i < |prefix| && Fails(env, value, root, prefix[i])
               && env.ruleFunc(prefix[i].f, value, root).errorMessage == msg;
      assert entries[i] == prefix[i];
    } else {
      assert Fails(env, value, root, entries[n]);
    }
  }

  /** A list reports no failure exactly when none of its entries fails. */
  lemma FailuresEmptyIff(env: Env, value: Value, root: Value, entries: seq<Entry>)
    ensures (Failures(env, value, root, entries) == [])
            == (forall i :: 0 <= i < |entries| ==> !Fails(env, value, root, entries[i]))
  {
    if Failures(env, value, root, entries) == [] {
      forall i | 0 <= i < |entries| ensures !Fails(env, value, root, entries[i]) {
        if Fails(env, value, root, entries[i]) {
          FailingEntryReported(env, value, root, entries, i);
        }
      }
    } else {
      ReportedMessageFails(env, value, root, entries, Failures(env, value, root, entries)[0]);
    }
  }

  /** A list yields at most one message per entry. */
  lemma {:induction false} FailuresAtMostOnePerEntry(env: Env, value: Value, root: Value, entries: seq<Entry>)
    ensures |Failures(env, value, root, entries)| <= |entries|
    decreases |entries|
  {
    if entries != [] {
      FailuresAtMostOnePerEntry(env, value, root, entries[..|entries| - 1]);
    }
  }

  /** The whole-array `errors` is present iff some entry of an `arrayRules` list fails,
      and then it is the message list of one pass over the list. */
  lemma WholeArrayErrorsIff(env: Env, value: Value, root: Value, arrayRules: Rule)
    requires WholeArrayErrors(env, value, root, arrayRules).Ok?
    ensures var r := WholeArrayErrors(env, value, root, arrayRules).value;
            && (r.Some? <==> arrayRules.PrimitiveList? && exists i :: 0 <= i < |arrayRules.entries|
                                                             && Fails(env, value, root, arrayRules.entries[i]))
            && (r.Some? ==> r.value == Failures(env, value, root, arrayRules.entries))
  {
    if arrayRules.PrimitiveList? {
      FailuresEmptyIff(env, value, root, arrayRules.entries);
    }
  }

  // ---------------------------------------------------------------------------
  // Shape of the error tree

  /** The array node of a field error keeps no empty container. */
  predicate ArrayNodeShape(a: ErrorOfArray) {
    && (a.errors.Some? ==> |a.errors.value| > 0)
    && (a.errorsEach.ErrorsEach? ==> |a.errorsEach.entries| > 0)
    && IndicesIncrease(EntriesOf(a.errorsEach))
    && forall i :: 0 <= i < |EntriesOf(a.errorsEach)| ==> NonEmptyErrorOf(EntriesOf(a.errorsEach)[i].errors)
  }

  /** `validateStruct` returns `undefined` or an error object whose keys are own keys of
      the rule and whose every entry is non-empty. */
  lemma {:induction false} StructErrorsShape(env: Env, obj: Value, root: Value, rule: Rule)
    ensures var r := StructErrors(env, obj, root, rule);
            r.Ok? && r.value.Some? ==> r.value.value.Keys <= OwnRuleKeys(rule) && NonEmptyErrorOf(r.value.value)
    decreases Defined(obj), obj, 1, 0
  {
    var r := StructErrors(env, obj, root, rule);
    if r.Ok? && r.value.Some? {
      var results := KeyResults(env, obj, root, rule);
      var m := r.value.value;
      assert m == Entries(results, results.Keys);
      forall k | k in m ensures NonEmptyTree(m[k]) {
        KeyErrorsShape(env, Get(obj, k), root, RuleAt(env, rule, k));
      }
    }
  }

  /** An entry the loop body assigns is never empty. */
  lemma {:induction false} KeyErrorsShape(env: Env, value: Value, root: Value, rule: Rule)
    ensures var r := KeyErrors(env, value, root, rule);
            r.Ok? && r.value.Some? ==> NonEmptyTree(r.value.value)
    decreases Defined(value), value, 7, 0
  {
    ArrayKeyErrorsShape(env, value, root, rule);
    ObjectFieldErrorsShape(env, value, root, rule);
  }

  lemma {:induction false} ArrayKeyErrorsShape(env: Env, value: Value, root: Value, rule: Rule)
    ensures var r := ArrayKeyErrors(env, value, root, rule);
            r.Ok? && r.value.Some? ==> NonEmptyTree(r.value.value)
    decreases Defined(value), value, 6, 0
  {
    if Truthy(value) && value.Arr? {
      ArrayFieldErrorsShape(env, value, root, rule, MaxBuilderChain);
    }
  }

  lemma {:induction false} ObjectFieldErrorsShape(env: Env, value: Value, root: Value, rule: Rule)
    ensures var r := ObjectFieldErrors(env, value, root, rule);
            r.Ok? && r.value.Some? ==> NonEmptyErrorOf(r.value.value)
    decreases Defined(value), value, 2, 0
  {
    if Truthy(value) {
      StructErrorsShape(env, value, root, rule);
    }
  }

  lemma {:induction false} ArrayFieldErrorsShape(env: Env, value: Value, root: Value, rule: Rule, fuel: nat)
    ensures var r := ArrayFieldErrors(env, value, root, rule, fuel);
            r.Ok? && r.value.Some? ==> ArrayNodeShape(r.value.value)
    decreases Defined(value), value, 5, fuel
  {
    if rule.Builder? {
      if fuel > 0 {
        ArrayFieldErrorsShape(env, value, root, Lookup(env, env.builder(rule.b, value, root)), fuel - 1);
      }
    } else {
      var item := RuleAt(env, rule, "arrayItemRule");
      if RuleTruthy(item) && value.Arr? {
        EachErrorsShape(env, value, root, item, |value.elems|);
      }
    }
  }

  lemma {:induction false} EachErrorsShape(env: Env, value: Value, root: Value, item: Rule, n: nat)
    requires value.Arr? && n <= |value.elems|
    ensures var r := EachErrors(env, value, root, item, n);
            r.Ok? ==>
              var es := EntriesOf(r.value);
              && (r.value.ErrorsEach? ==> |es| > 0)
              && IndicesIncrease(es)
              && (forall i :: 0 <= i < |es| ==> es[i].index < n)
              && (forall i :: 0 <= i < |es| ==> NonEmptyErrorOf(es[i].errors))
    decreases Defined(value), value, 3, n
  {
    if n > 0 {
      EachErrorsShape(env, value, root, item, n - 1);
      ElementErrorsShape(env, value.elems[n - 1], root, item);
    }
  }

  lemma {:induction false} ElementErrorsShape(env: Env, element: Value, root: Value, item: Rule)
    ensures var r := ElementErrors(env, element, root, item);
            r.Ok? && r.value.Some? ==> NonEmptyErrorOf(r.value.value)
    decreases Defined(element), element, 2, 0
  {
    var rule := if item.Builder? then Lookup(env, env.builder(item.b, element, root)) else item;
    StructErrorsShape(env, element, root, rule);
  }

  // ---------------------------------------------------------------------------
  // Which keys end up in the error object

  /** `validateStruct` throws exactly when the rule has a key and the object is
      `undefined` or `null`, or when the body throws for some key. */
  lemma StructErrorsThrowsIff(env: Env, obj: Value, root: Value, rule: Rule)
    ensures StructErrors(env, obj, root, rule).Throws?
            <==> OwnRuleKeys(rule) != {}
                 && (IsNullish(obj)
                     || exists k :: k in OwnRuleKeys(rule) && KeyErrors(env, Get(obj, k), root, RuleAt(env, rule, k)).Throws?)
  {
    if OwnRuleKeys(rule) != {} && !IsNullish(obj) {
      var results := KeyResults(env, obj, root, rule);
      if exists k :: k in OwnRuleKeys(rule) && KeyErrors(env, Get(obj, k), root, RuleAt(env, rule, k)).Throws? {
        var k :| k in OwnRuleKeys(rule) && KeyErrors(env, Get(obj, k), root, RuleAt(env, rule, k)).Throws?;
        assert results[k].Throws?;
      }
    }
  }

  /** A key of the rule is in the error object iff the body assigned something for it,
      and then it holds exactly that. */
  lemma StructErrorsEntries(env: Env, obj: Value, root: Value, rule: Rule, key: string)
    requires key in OwnRuleKeys(rule)
    requires StructErrors(env, obj, root, rule).Ok?
    ensures KeyErrors(env, Get(obj, key), root, RuleAt(env, rule, key)).Ok?
    ensures var r := StructErrors(env, obj, root, rule).value;
            var e := KeyErrors(env, Get(obj, key), root, RuleAt(env, rule, key)).value;
            && ((r.Some? && key in r.value) <==> e.Some?)
            && (e.Some? ==> r.value[key] == e.value)
  {
    var results := KeyResults(env, obj, root, rule);
    assert key in results;
    var e := KeyErrors(env, Get(obj, key), root, RuleAt(env, rule, key));
    if e.Ok? && e.value.Some? {
      assert key in Entries(results, results.Keys);
    }
  }

  /** The error objects of the first `n` elements. */
  ghost function ElementOutcomes(env: Env, value: Value, root: Value, item: Rule, n: nat)
    : (s: seq<Outcome<Option<ErrorOf>>>)
    requires value.Arr? && n <= |value.elems|
    ensures |s| == n
  {
    if n == 0 then [] else ElementOutcomes(env, value, root, item, n - 1) + [ElementErrors(env, value.elems[n - 1], root, item)]
  }

  lemma {:induction false} ElementOutcomesAt(env: Env, value: Value, root: Value, item: Rule, n: nat, i: nat)
    requires value.Arr? && i < n <= |value.elems|
    ensures ElementOutcomes(env, value, root, item, n)[i] == ElementErrors(env, value.elems[i], root, item)
    decreases n
  {
    if i < n - 1 {
      ElementOutcomesAt(env, value, root, item, n - 1, i);
    }
  }

  lemma {:induction false} EachErrorsIsCollect(env: Env, value: Value, root: Value, item: Rule, n: nat)
    requires value.Arr? && n <= |value.elems|
    ensures EachErrors(env, value, root, item, n) == Collect(ElementOutcomes(env, value, root, item, n), value.elems)
    decreases n
  {
    if n > 0 {
      EachErrorsIsCollect(env, value, root, item, n - 1);
      var outs := ElementOutcomes(env, value, root, item, n);
      var e := ElementErrors(env, value.elems[n - 1], root, item);
      assert outs == ElementOutcomes(env, value, root, item, n - 1) + [e];
      assert outs[..n - 1] == ElementOutcomes(env, value, root, item, n - 1);
      assert outs[n - 1] == e;
      CollectStep(outs, value.elems);
    }
  }

  /** The element loop records exactly the elements whose error object is defined, each
      with its index and the element itself, in increasing index order; `errorsEach`
      stays absent when no element fails. `outs[i]` is the error object of element `i`. */
  lemma EachErrorsExact(env: Env, value: Value, root: Value, item: Rule)
    requires value.Arr?
    requires EachErrors(env, value, root, item, |value.elems|).Ok?
    ensures var elems := value.elems;
            var outs := ElementOutcomes(env, value, root, item, |elems|);
            var each := EachErrors(env, value, root, item, |elems|).value;
            var es := EntriesOf(each);
            && (forall i :: 0 <= i < |elems| ==> outs[i] == ElementErrors(env, elems[i], root, item))
            && (forall i :: 0 <= i < |elems| ==> outs[i].Ok?)
            && (forall j :: 0 <= j < |es| ==>
                  && es[j].index < |elems|
                  && es[j].validatedObject == elems[es[j].index]
                  && outs[es[j].index] == Ok(Some(es[j].errors)))
            && (forall i :: 0 <= i < |elems| && outs[i] != Ok(None) ==> exists j :: 0 <= j < |es| && es[j].index == i)
            && IndicesIncrease(es)
            && (each.ErrorsEach? <==> exists i :: 0 <= i < |elems| && outs[i] != Ok(None))
  {
    var elems := value.elems;
    var n := |elems|;
    var outs := ElementOutcomes(env, value, root, item, n);
    forall i | 0 <= i < n ensures outs[i] == ElementErrors(env, elems[i], root, item) {
      ElementOutcomesAt(env, value, root, item, n, i);
    }
    EachErrorsIsCollect(env, value, root, item, n);
    CollectExact(outs, elems);
  }

  // ---------------------------------------------------------------------------
  // Iteration is driven by the rule

  /** Two objects agree on the given keys. */
  predicate SameFields(o1: Value, o2: Value, keys: set<string>) {
    forall k :: k in keys ==> Get(o1, k) == Get(o2, k)
  }

  /** `validateStruct` reads the object only at the own keys of the rule. */
  lemma StructErrorsReadsOnlyRuleKeys(env: Env, o1: Value, o2: Value, root: Value, rule: Rule)
    requires IsNullish(o1) == IsNullish(o2)
    requires SameFields(o1, o2, OwnRuleKeys(rule))
    ensures StructErrors(env, o1, root, rule) == StructErrors(env, o2, root, rule)
  {
    if OwnRuleKeys(rule) != {} && !IsNullish(o1) {
      var m1 := KeyResults(env, o1, root, rule);
      var m2 := KeyResults(env, o2, root, rule);
      forall k | k in m1 ensures m1[k] == m2[k] {
        assert Get(o1, k) == Get(o2, k);
      }
      SameResults(m1, m2);
    }
  }

  /** Properties of the object that the rule does not name are never visited. */
  lemma ExtraObjectKeysIgnored(env: Env, fields: map<string, Value>, root: Value, rule: Rule)
    ensures StructErrors(env, Obj(fields), root, rule)
            == StructErrors(env, Obj(map k | k in fields && k in OwnRuleKeys(rule) :: fields[k]), root, rule)
  {
    StructErrorsReadsOnlyRuleKeys(env, Obj(fields), Obj(map k | k in fields && k in OwnRuleKeys(rule) :: fields[k]), root, rule);
  }

  /** A rule key missing from the object is still checked, with the value `undefined`. */
  lemma MissingKeyChecked(env: Env, fields: map<string, Value>, root: Value, rule: Rule, key: string)
    requires key in OwnRuleKeys(rule) && key !in fields
    requires RuleAt(env, rule, key).PrimitiveList?
    requires StructErrors(env, Obj(fields), root, rule).Ok?
    ensures var r := StructErrors(env, Obj(fields), root, rule).value;
            (r.Some? && key in r.value) <==> Failures(env, Undefined, root, RuleAt(env, rule, key).entries) != []
  {
    StructErrorsEntries(env, Obj(fields), root, rule, key);
  }

  /** A falsy value under an array or object rule records nothing, and so does a truthy
      value that is not an array under an array rule. */
  lemma AbsencePolicy(env: Env, value: Value, root: Value, rule: Rule)
    ensures var t := GetPropertyTypeBasedOnItsRule(rule);
            (t == ArrayType || t == ObjectType) && !Truthy(value) ==> KeyErrors(env, value, root, rule) == Ok(None)
    ensures GetPropertyTypeBasedOnItsRule(rule) == ArrayType && Truthy(value) && !value.Arr? ==>
              KeyErrors(env, value, root, rule) == Ok(None)
  {
  }

  // ---------------------------------------------------------------------------
  // The root is passed through unchanged

  /** The environment whose rule functions and builders disregard the root they are
      handed and use `r` in its place. */
  function AtRoot(env: Env, r: Value): Env {
    Env(env.rules,
        (f: RuleFuncId, v: Value, _: Value) => env.ruleFunc(f, v, r),
        (b: BuilderId, v: Value, _: Value) => env.builder(b, v, r))
  }

  /** Every rule function of a list is called with exactly the root the list is validated
      under: pinning the rule functions to that root leaves the failures unchanged,
      whatever root is handed on. */
  lemma {:induction false} FailuresRootPassed(env: Env, value: Value, root: Value, x: Value, entries: seq<Entry>)
    ensures Failures(env, value, root, entries) == Failures(AtRoot(env, root), value, x, entries)
    decreases |entries|
  {
    if entries != [] {
      FailuresRootPassed(env, value, root, x, entries[..|entries| - 1]);
      var last := entries[|entries| - 1];
      if last.RuleFunc? {
        assert AtRoot(env, root).ruleFunc(last.f, value, x) == env.ruleFunc(last.f, value, root);
      }
    }
  }

  lemma WholeArrayErrorsRootPassed(env: Env, value: Value, root: Value, x: Value, arrayRules: Rule)
    ensures WholeArrayErrors(env, value, root, arrayRules) == WholeArrayErrors(AtRoot(env, root), value, x, arrayRules)
  {
    if arrayRules.PrimitiveList? {
      FailuresRootPassed(env, value, root, x, arrayRules.entries);
    }
  }

  /** At every depth the engine hands rule functions and builders the root it was given,
      unchanged, and uses the root for nothing else. */
  lemma {:induction false} StructErrorsRootPassed(env: Env, obj: Value, root: Value, x: Value, rule: Rule)
    ensures StructErrors(env, obj, root, rule) == StructErrors(AtRoot(env, root), obj, x, rule)
    decreases Defined(obj), obj, 1, 0
  {
    if OwnRuleKeys(rule) != {} && !IsNullish(obj) {
      var pinned := AtRoot(env, root);
      var m1 := KeyResults(env, obj, root, rule);
      var m2 := KeyResults(pinned, obj, x, rule);
      assert m1.Keys == m2.Keys;
      forall k | k in m1 ensures m1[k] == m2[k] {
        assert RuleAt(pinned, rule, k) == RuleAt(env, rule, k);
        KeyErrorsRootPassed(env, Get(obj, k), root, x, RuleAt(env, rule, k));
      }
      SameResults(m1, m2);
      assert StructErrors(pinned, obj, x, rule) == Assemble(m2);
    }
  }

  lemma {:induction false} KeyErrorsRootPassed(env: Env, value: Value, root: Value, x: Value, rule: Rule)
    ensures KeyErrors(env, value, root, rule) == KeyErrors(AtRoot(env, root), value, x, rule)
    decreases Defined(value), value, 7, 0
  {
    if rule.PrimitiveList? {
      FailuresRootPassed(env, value, root, x, rule.entries);
    }
    ObjectFieldErrorsRootPassed(env, value, root, x, rule);
    ArrayKeyErrorsRootPassed(env, value, root, x, rule);
  }

  lemma {:induction false} ArrayKeyErrorsRootPassed(env: Env, value: Value, root: Value, x: Value, rule: Rule)
    ensures ArrayKeyErrors(env, value, root, rule) == ArrayKeyErrors(AtRoot(env, root), value, x, rule)
    decreases Defined(value), value, 6, 0
  {
    if Truthy(value) && value.Arr? {
      ArrayFieldErrorsRootPassed(env, value, root, x, rule, MaxBuilderChain);
    }
  }

  lemma {:induction false} ObjectFieldErrorsRootPassed(env: Env, value: Value, root: Value, x: Value, rule: Rule)
    ensures ObjectFieldErrors(env, value, root, rule) == ObjectFieldErrors(AtRoot(env, root), value, x, rule)
    decreases Defined(value), value, 2, 0
  {
    if Truthy(value) {
      StructErrorsRootPassed(env, value, root, x, rule);
    }
  }

  /** A builder of an array node is applied to the field value and the root unchanged. */
  lemma {:induction false} ArrayFieldErrorsRootPassed(env: Env, value: Value, root: Value, x: Value, rule: Rule, fuel: nat)
    ensures ArrayFieldErrors(env, value, root, rule, fuel) == ArrayFieldErrors(AtRoot(env, root), value, x, rule, fuel)
    decreases Defined(value), value, 5, fuel
  {
    if rule.Builder? {
      if fuel > 0 {
        assert AtRoot(env, root).builder(rule.b, value, x) == env.builder(rule.b, value, root);
        ArrayFieldErrorsRootPassed(env, value, root, x, Lookup(env, env.builder(rule.b, value, root)), fuel - 1);
      }
    } else {
      ArrayNodeRootPassed(env, value, root, x, rule);
    }
  }

  lemma {:induction false} ArrayNodeRootPassed(env: Env, value: Value, root: Value, x: Value, rule: Rule)
    ensures ArrayNodeErrors(env, value, root, rule) == ArrayNodeErrors(AtRoot(env, root), value, x, rule)
    decreases Defined(value), value, 4, 0
  {
    if IsArrayValidationRule(rule) == Ok(true) {
      WholeArrayErrorsRootPassed(env, value, root, x, RuleAt(env, rule, "arrayRules"));
      var item := RuleAt(env, rule, "arrayItemRule");
      if RuleTruthy(item) && value.Arr? {
        EachErrorsRootPassed(env, value, root, x, item, |value.elems|);
      }
    }
  }

  lemma {:induction false} EachErrorsRootPassed(env: Env, value: Value, root: Value, x: Value, item: Rule, n: nat)
    requires value.Arr? && n <= |value.elems|
    ensures EachErrors(env, value, root, item, n) == EachErrors(AtRoot(env, root), value, x, item, n)
    decreases Defined(value), value, 3, n
  {
    if n > 0 {
      EachErrorsRootPassed(env, value, root, x, item, n - 1);
      ElementErrorsRootPassed(env, value.elems[n - 1], root, x, item);
    }
  }

  /** A builder item rule is applied to the element and the root unchanged. */
  lemma {:induction false} ElementErrorsRootPassed(env: Env, element: Value, root: Value, x: Value, item: Rule)
    ensures ElementErrors(env, element, root, item) == ElementErrors(AtRoot(env, root), element, x, item)
    decreases Defined(element), element, 2, 0
  {
    if item.Builder? {
      assert AtRoot(env, root).builder(item.b, element, x) == env.builder(item.b, element, root);
    }
    var rule := if item.Builder? then Lookup(env, env.builder(item.b, element, root)) else item;
    StructErrorsRootPassed(env, element, root, x, rule);
  }

  /** Once an element throws, the whole element loop throws. */
  lemma {:induction false} EachErrorsThrowsFrom(env: Env, value: Value, root: Value, item: Rule, k: nat, n: nat)
    requires value.Arr? && k <= n <= |value.elems|
    requires EachErrors(env, value, root, item, k).Throws?
    ensures EachErrors(env, value, root, item, n).Throws?
    decreases n
  {
    if k < n {
      EachErrorsThrowsFrom(env, value, root, item, k, n - 1);
    }
  }
}
