/** Properties of the older objectValidator engine, stated over the functions of
    ObjectValidatorSpec. */
module ObjectValidatorLemmas {
  import opened Wrappers
  import opened Values
  import opened Types
  import opened ObjectRules
  import opened ObjectValidatorSpec
  import opened ErrorObjects

  // ---------------------------------------------------------------------------
  // Validator lists

  /** The failures of a concatenation are the failures of each part, in order. */
  lemma {:induction false} FailuresAppend(env: Env, key: string, obj: Value, a: seq<Entry>, b: seq<Entry>, needsMessage: bool)
    ensures Failures(env, key, obj, a + b, needsMessage)
            == Failures(env, key, obj, a, needsMessage) + Failures(env, key, obj, b, needsMessage)
    decreases |b|
  {
    if b == [] {
      assert a + b == a;
    } else {
      var b' := b[..|b| - 1];
      assert (a + b)[..|a + b| - 1] == a + b';
      FailuresAppend(env, key, obj, a, b', needsMessage);
    }
  }

  /** An entry that is not run (falsy, without `validate`, or without a message where
      one is needed) may be removed from a list without changing its failures. */
  lemma SkippedEntryIgnored(env: Env, key: string, obj: Value, a: seq<Entry>, e: Entry, b: seq<Entry>, needsMessage: bool)
    requires !Runs(e, needsMessage)
    ensures Failures(env, key, obj, a + [e] + b, needsMessage) == Failures(env, key, obj, a + b, needsMessage)
  {
    FailuresAppend(env, key, obj, a + [e], b, needsMessage);
    FailuresAppend(env, key, obj, a, [e], needsMessage);
    FailuresAppend(env, key, obj, a, b, needsMessage);
    assert Failures(env, key, obj, [e], needsMessage) == [] by {
      assert [e][..0] == [];
    }
  }

  /** Every failing entry contributes its message: no short-circuit. */
  lemma FailingEntryReported(env: Env, key: string, obj: Value, entries: seq<Entry>, i: nat, needsMessage: bool)
    requires i < |entries| && Fails(env, key, obj, entries[i], needsMessage)
    ensures ValidateProperty(env, key, obj, entries[i].pv).errorMessage in Failures(env, key, obj, entries, needsMessage)
  {
    assert entries == entries[..i] + [entries[i]] + entries[i + 1..];
    FailuresAppend(env, key, obj, entries[..i] + [entries[i]], entries[i + 1..], needsMessage);
    FailuresAppend(env, key, obj, entries[..i], [entries[i]], needsMessage);
    assert Failures(env, key, obj, [entries[i]], needsMessage) == [ValidateProperty(env, key, obj, entries[i].pv).errorMessage] by {
      assert [entries[i]][..0] == [];
    }
  }

  /** Every reported message is the message of some failing entry. */
  lemma {:induction false} ReportedMessageFails(env: Env, key: string, obj: Value, entries: seq<Entry>, msg: string, needsMessage: bool)
    requires msg in Failures(env, key, obj, entries, needsMessage)
    ensures exists i :: 0 <= i < |entries| && Fails(env, key, obj, entries[i], needsMessage)
                        && ValidateProperty(env, key, obj, entries[i].pv).errorMessage == msg
    decreases |entries|
  {
    var n := |entries| - 1;
    var prefix := entries[..n];
    if msg in Failures(env, key, obj, prefix, needsMessage) {
      ReportedMessageFails(env, key, obj, prefix, msg, needsMessage);
      var i :| 0 <= i < |prefix| && Fails(env, key, obj, prefix[i], needsMessage)
               && ValidateProperty(env, key, obj, prefix[i].pv).errorMessage == msg;
      assert entries[i] == prefix[i];
    } else {
      assert Fails(env, key, obj, entries[n], needsMessage);
    }
  }

  /** A list reports no failure exactly when none of its entries fails. */
  lemma FailuresEmptyIff(env: Env, key: string, obj: Value, entries: seq<Entry>, needsMessage: bool)
    ensures (Failures(env, key, obj, entries, needsMessage) == [])
            == (forall i :: 0 <= i < |entries| ==> !Fails(env, key, obj, entries[i], needsMessage))
  {
    if Failures(env, key, obj, entries, needsMessage) == [] {
      forall i | 0 <= i < |entries| ensures !Fails(env, key, obj, entries[i], needsMessage) {
        if Fails(env, key, obj, entries[i], needsMessage) {
          FailingEntryReported(env, key, obj, entries, i, needsMessage);
        }
      }
    } else {
      ReportedMessageFails(env, key, obj, entries, Failures(env, key, obj, entries, needsMessage)[0], needsMessage);
    }
  }

  /** A list yields at most one message per entry. */
  lemma {:induction false} FailuresAtMostOnePerEntry(env: Env, key: string, obj: Value, entries: seq<Entry>, needsMessage: bool)
    ensures |Failures(env, key, obj, entries, needsMessage)| <= |entries|
    decreases |entries|
  {
    if entries != [] {
      FailuresAtMostOnePerEntry(env, key, obj, entries[..|entries| - 1], needsMessage);
    }
  }

  // ---------------------------------------------------------------------------
  // Shape of the error object

  /** `getErrorOf` returns `undefined` or an error object whose keys are own keys of the
      rule and whose every entry is non-empty. */
  lemma {:induction false} ErrorObjectShape(env: Env, obj: Value, rule: Rule)
    ensures var r := ErrorObject(env, obj, rule);
            r.Ok? && r.value.Some? ==> r.value.value.Keys <= OwnRuleKeys(rule) && NonEmptyErrorOf(r.value.value)
    decreases obj, 4, 0
  {
    var r := ErrorObject(env, obj, rule);
    if r.Ok? && r.value.Some? {
      var results := KeyResults(env, obj, rule);
      var m := r.value.value;
      assert m == Entries(results, results.Keys);
      forall k | k in m ensures NonEmptyTree(m[k]) {
        KeyErrorsShape(env, obj, k, RuleAt(env, rule, k));
      }
    }
  }

  /** An entry the loop body records is never empty. */
  lemma {:induction false} KeyErrorsShape(env: Env, obj: Value, key: string, rule: Rule)
    requires !IsNullish(obj)
    ensures var r := KeyErrors(env, obj, key, rule);
            r.Ok? && r.value.Some? ==> NonEmptyTree(r.value.value)
    decreases obj, 2, 0
  {
    var value := Get(obj, key);
    if rule.Record? {
      if value.Arr? {
        ArrayPropertyErrorsShape(env, obj, key, rule);
      } else if value.Obj? || value.Date? {
        ErrorObjectShape(env, value, rule);
      }
    }
  }

  lemma {:induction false} ArrayPropertyErrorsShape(env: Env, obj: Value, key: string, rule: Rule)
    requires Get(obj, key).Arr?
    ensures var r := ArrayPropertyErrors(env, obj, key, rule);
            r.Ok? && r.value.Some? ==> NonEmptyTree(r.value.value)
    decreases obj, 1, 0
  {
    var value := Get(obj, key);
    var item := RuleAt(env, rule, "validationRule");
    if !item.Falsy? {
      EachErrorsShape(env, value, item, |value.elems|);
    }
  }

  lemma {:induction false} EachErrorsShape(env: Env, value: Value, item: Rule, n: nat)
    requires value.Arr? && n <= |value.elems|
    ensures var r := EachErrors(env, value, item, n);
            r.Ok? ==>
              var es := EntriesOf(r.value);
              && (r.value.ErrorsEach? ==> |es| > 0)
              && IndicesIncrease(es)
              && (forall i :: 0 <= i < |es| ==> es[i].index < n)
              && (forall i :: 0 <= i < |es| ==> NonEmptyErrorOf(es[i].errors))
    decreases value, 0, n
  {
    if n > 0 {
      EachErrorsShape(env, value, item, n - 1);
      ErrorObjectShape(env, value.elems[n - 1], item);
    }
  }

  // ---------------------------------------------------------------------------
  // Which keys end up in the error object

  /** `getErrorOf` throws exactly when the rule has a key and the object is `undefined`
      or `null`, or when the body throws for some key. */
  lemma ErrorObjectThrowsIff(env: Env, obj: Value, rule: Rule)
    ensures ErrorObject(env, obj, rule).Throws?
            <==> OwnRuleKeys(rule) != {}
                 && (IsNullish(obj) || exists k :: k in OwnRuleKeys(rule) && KeyErrors(env, obj, k, RuleAt(env, rule, k)).Throws?)
  {
    if OwnRuleKeys(rule) != {} && !IsNullish(obj) {
      var results := KeyResults(env, obj, rule);
      if exists k :: k in OwnRuleKeys(rule) && KeyErrors(env, obj, k, RuleAt(env, rule, k)).Throws? {
        var k :| k in OwnRuleKeys(rule) && KeyErrors(env, obj, k, RuleAt(env, rule, k)).Throws?;
        assert results[k].Throws?;
      }
    }
  }

  /** A key of the rule is in the error object iff the body recorded something for it,
      and then it holds exactly that. */
  lemma ErrorObjectEntries(env: Env, obj: Value, rule: Rule, key: string)
    requires key in OwnRuleKeys(rule)
    requires ErrorObject(env, obj, rule).Ok?
    ensures !IsNullish(obj) && KeyErrors(env, obj, key, RuleAt(env, rule, key)).Ok?
    ensures var r := ErrorObject(env, obj, rule).value;
            var e := KeyErrors(env, obj, key, RuleAt(env, rule, key)).value;
            && ((r.Some? && key in r.value) <==> e.Some?)
            && (e.Some? ==> r.value[key] == e.value)
  {
    var results := KeyResults(env, obj, rule);
    assert key in results;
    var e := KeyErrors(env, obj, key, RuleAt(env, rule, key));
    if e.Ok? && e.value.Some? {
      assert key in Entries(results, results.Keys);
    }
  }

  /** A list rule records the failures of its validators, in list order, iff one fails. */
  lemma ListRuleReported(env: Env, obj: Value, rule: Rule, key: string)
    requires key in OwnRuleKeys(rule) && RuleAt(env, rule, key).ValidatorList?
    requires ErrorObject(env, obj, rule).Ok?
    ensures var r := ErrorObject(env, obj, rule).value;
            var entries := RuleAt(env, rule, key).entries;
            && ((r.Some? && key in r.value) <==> exists i :: 0 <= i < |entries| && Fails(env, key, obj, entries[i], false))
            && (r.Some? && key in r.value ==> r.value[key] == FieldErrors(Failures(env, key, obj, entries, false)))
  {
    ErrorObjectEntries(env, obj, rule, key);
    FailuresEmptyIff(env, key, obj, RuleAt(env, rule, key).entries, false);
  }

  /** A `null` value under a non-list rule is reported with a fixed message. */
  lemma NullValueReported(env: Env, obj: Value, rule: Rule, key: string)
    requires key in OwnRuleKeys(rule) && RuleAt(env, rule, key).Record?
    requires ErrorObject(env, obj, rule).Ok? && Get(obj, key).Null?
    ensures var r := ErrorObject(env, obj, rule).value;
            r.Some? && key in r.value && r.value[key] == ArrayErrors(ErrorOfArray(Some([NullValueMessage(key)]), NoErrorsEach))
  {
    ErrorObjectEntries(env, obj, rule, key);
  }

  /** A missing property, a boolean, a number or a string under a non-list rule records
      nothing. */
  lemma ScalarValueIgnored(env: Env, obj: Value, rule: Rule, key: string)
    requires key in OwnRuleKeys(rule) && RuleAt(env, rule, key).Record?
    requires ErrorObject(env, obj, rule).Ok?
    requires var v := Get(obj, key); v.Undefined? || v.Bool? || v.Num? || v.Str?
    ensures var r := ErrorObject(env, obj, rule).value;
            !(r.Some? && key in r.value)
  {
    ErrorObjectEntries(env, obj, rule, key);
  }

  /** Under a non-list rule, the array branch is taken because the value is an array,
      whatever keys the rule has. */
  lemma ArrayBranchByValue(env: Env, obj: Value, rule: Rule, key: string)
    requires key in OwnRuleKeys(rule) && RuleAt(env, rule, key).Record?
    requires ErrorObject(env, obj, rule).Ok? && Get(obj, key).Arr?
    ensures ArrayPropertyErrors(env, obj, key, RuleAt(env, rule, key)).Ok?
    ensures var r := ErrorObject(env, obj, rule).value;
            var e := ArrayPropertyErrors(env, obj, key, RuleAt(env, rule, key)).value;
            && ((r.Some? && key in r.value) <==> e.Some?)
            && (e.Some? ==> r.value[key] == e.value)
  {
    ErrorObjectEntries(env, obj, rule, key);
  }

  /** An object or date value under a non-list rule is validated against that same rule;
      it is recorded iff its own error object is defined, and then holds it. */
  lemma SubObjectDescended(env: Env, obj: Value, rule: Rule, key: string)
    requires key in OwnRuleKeys(rule) && RuleAt(env, rule, key).Record?
    requires ErrorObject(env, obj, rule).Ok?
    requires var v := Get(obj, key); v.Obj? || v.Date?
    ensures ErrorObject(env, Get(obj, key), RuleAt(env, rule, key)).Ok?
    ensures var r := ErrorObject(env, obj, rule).value;
            var e := ErrorObject(env, Get(obj, key), RuleAt(env, rule, key)).value;
            && ((r.Some? && key in r.value) <==> e.Some?)
            && (e.Some? ==> r.value[key] == ObjectErrors(e.value))
  {
    ErrorObjectEntries(env, obj, rule, key);
  }

  // ---------------------------------------------------------------------------
  // The array branch

  /** The array entry is recorded iff `validators` reported a failure or some element
      has errors; its `errors` are the failures of the `validators` list, present iff one
      of its run entries fails, and its `errorsEach` is the element loop's result. */
  lemma ArrayPropertyErrorsIff(env: Env, obj: Value, key: string, rule: Rule)
    requires Get(obj, key).Arr?
    requires ArrayPropertyErrors(env, obj, key, rule).Ok?
    ensures var value := Get(obj, key);
            var validators := RuleAt(env, rule, "validators");
            var item := RuleAt(env, rule, "validationRule");
            var messages := ValidatorsFailures(env, obj, key, rule);
            var each := if item.Falsy? then NoErrorsEach else EachErrors(env, value, item, |value.elems|).value;
            var r := ArrayPropertyErrors(env, obj, key, rule).value;
            && (!item.Falsy? ==> EachErrors(env, value, item, |value.elems|).Ok?)
            && (messages != [] <==> validators.ValidatorList? && exists i :: 0 <= i < |validators.entries|
                                                                    && Fails(env, key, obj, validators.entries[i], true))
            && (r.Some? <==> messages != [] || each.ErrorsEach?)
            && (r.Some? ==> r.value == ArrayErrors(ErrorOfArray(if messages == [] then None else Some(messages), each)))
  {
    var validators := RuleAt(env, rule, "validators");
    if validators.ValidatorList? {
      FailuresEmptyIff(env, key, obj, validators.entries, true);
    }
  }

  /** The error objects of the first `n` elements. */
  ghost function ElementOutcomes(env: Env, value: Value, item: Rule, n: nat): (s: seq<Outcome<Option<ErrorOf>>>)
    requires value.Arr? && n <= |value.elems|
    ensures |s| == n
  {
    if n == 0 then [] else ElementOutcomes(env, value, item, n - 1) + [ErrorObject(env, value.elems[n - 1], item)]
  }

  lemma {:induction false} ElementOutcomesAt(env: Env, value: Value, item: Rule, n: nat, i: nat)
    requires value.Arr? && i < n <= |value.elems|
    ensures ElementOutcomes(env, value, item, n)[i] == ErrorObject(env, value.elems[i], item)
    decreases n
  {
    if i < n - 1 {
      ElementOutcomesAt(env, value, item, n - 1, i);
    }
  }

  lemma {:induction false} EachErrorsIsCollect(env: Env, value: Value, item: Rule, n: nat)
    requires value.Arr? && n <= |value.elems|
    ensures EachErrors(env, value, item, n) == Collect(ElementOutcomes(env, value, item, n), value.elems)
    decreases n
  {
    if n > 0 {
      EachErrorsIsCollect(env, value, item, n - 1);
      var outs := ElementOutcomes(env, value, item, n);
      var e := ErrorObject(env, value.elems[n - 1], item);
      assert outs == ElementOutcomes(env, value, item, n - 1) + [e];
      assert outs[..n - 1] == ElementOutcomes(env, value, item, n - 1);
      assert outs[n - 1] == e;
      CollectStep(outs, value.elems);
    }
  }

  /** The element loop records exactly the elements whose error object is defined, each
      with its index and the element itself, in increasing index order; `errorsEach`
      stays absent when no element has errors. `outs[i]` is the error object of element
      `i`. */
  lemma EachErrorsExact(env: Env, value: Value, item: Rule)
    requires value.Arr?
    requires EachErrors(env, value, item, |value.elems|).Ok?
    ensures var elems := value.elems;
            var outs := ElementOutcomes(env, value, item, |elems|);
            var each := EachErrors(env, value, item, |elems|).value;
            var es := EntriesOf(each);
            && (forall i :: 0 <= i < |elems| ==> outs[i] == ErrorObject(env, elems[i], item))
            && (forall i :: 0 <= i < |elems| ==> outs[i].Ok?)
            && (forall j :: 0 <= j < |es| ==>
                  && es[j].index < |elems|
                  && es[j].validatedObject == elems[es[j].index]
                  && outs[es[j].index] == Ok(Some(es[j].errors)))
            && (forall i :: 0 <= i < |elems| && outs[i] != Ok(None) ==> exists j :: 0 <= j < |es| && es[j].index == i)
            && IndicesIncrease(es)
            && (each.ErrorsEach? <==> exists i :: 0 <= i < |elems| && outs[i] != Ok(None))
  {
    var elems := value.elems;
    var n := |elems|;
    var outs := ElementOutcomes(env, value, item, n);
    forall i | 0 <= i < n ensures outs[i] == ErrorObject(env, elems[i], item) {
      ElementOutcomesAt(env, value, item, n, i);
    }
    EachErrorsIsCollect(env, value, item, n);
    CollectExact(outs, elems);
  }

  /** Once an element throws, the whole element loop throws. */
  lemma {:induction false} EachErrorsThrowsFrom(env: Env, value: Value, item: Rule, k: nat, n: nat)
    requires value.Arr? && k <= n <= |value.elems|
    requires EachErrors(env, value, item, k).Throws?
    ensures EachErrors(env, value, item, n).Throws?
    decreases n
  {
    if k < n {
      EachErrorsThrowsFrom(env, value, item, k, n - 1);
    }
  }
}
