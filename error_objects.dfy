/** The error object both engines build: a map from the failed keys of the rule to
    their entries, left `undefined` until the first entry is assigned. */
module ErrorObjects {
  import opened Wrappers
  import opened Values
  import opened Types

  /** The error object from what each key yields: it throws if any key throws,
      holds the keys that yield an entry, and is `undefined` when it would be empty. */
  function Assemble(results: map<string, Outcome<Option<ErrorTree>>>): Outcome<Option<ErrorOf>> {
    if exists k :: k in results && results[k].Throws? then Throws
    else Ok(AsErrorObject(Entries(results, results.Keys)))
  }

  /** The error object as `validateStruct` holds it: `undefined` until the first entry. */
  function AsErrorObject(m: ErrorOf): Option<ErrorOf> {
    if m == map[] then None else Some(m)
  }

  /** The entries the keys in `keys` contribute. */
  function Entries(results: map<string, Outcome<Option<ErrorTree>>>, keys: set<string>): ErrorOf {
    map k | k in keys && k in results && results[k].Ok? && results[k].value.Some? :: results[k].value.value
  }

  /** One `assignErrorsIfAny` step keeps the error object equal to the entries of the
      visited keys. */
  lemma AssignStep(results: map<string, Outcome<Option<ErrorTree>>>, visited: set<string>, key: string,
                   errors: Option<ErrorOf>, entry: Option<ErrorTree>)
    requires key in results && results[key] == Ok(entry)
    requires errors == AsErrorObject(Entries(results, visited))
    ensures entry.None? ==> errors == AsErrorObject(Entries(results, visited + {key}))
    ensures entry.Some? ==>
              var current := if errors.Some? then errors.value else map[];
              Some(current[key := entry.value]) == AsErrorObject(Entries(results, visited + {key}))
  {
    assert entry.Some? ==> key in Entries(results, visited + {key});
    assert Entries(results, visited + {key})
             == if entry.Some? then Entries(results, visited)[key := entry.value] else Entries(results, visited);
  }

  /** A key loop that met no throw and visited every key has built the assembled
      error object. */
  lemma AssembleAll(results: map<string, Outcome<Option<ErrorTree>>>, visited: set<string>, errors: Option<ErrorOf>)
    requires results.Keys == visited && forall k :: k in visited ==> results[k].Ok?
    requires errors == AsErrorObject(Entries(results, visited))
    ensures Assemble(results) == Ok(errors)
  {
  }

  /** A key whose body throws makes the whole loop throw. */
  lemma AssembleThrows(results: map<string, Outcome<Option<ErrorTree>>>, key: string)
    requires key in results && results[key].Throws?
    ensures Assemble(results) == Throws
  {
  }

  /** Two maps of key results that agree at every key are equal. */
  lemma SameResults(m1: map<string, Outcome<Option<ErrorTree>>>, m2: map<string, Outcome<Option<ErrorTree>>>)
    requires m1.Keys == m2.Keys
    requires forall k :: k in m1 ==> m1[k] == m2[k]
    ensures m1 == m2
  {
  }

  /** The scan of the result builders: a `for...in` loop over the own keys of the error
      object that clears `isValid` at the first truthy entry and stops there. Every
      entry is an array or an object, so the first key already clears it. */
  method ScanErrors(errors: Option<ErrorOf>) returns (isValid: bool)
    ensures isValid <==> !HasTruthyEntry(errors)
  {
    isValid := true;
    if errors.Some? {
      var keys := errors.value.Keys;
      while keys != {} && isValid
        invariant keys <= errors.value.Keys
        invariant isValid ==> keys == errors.value.Keys
        invariant !isValid ==> HasTruthyEntry(errors)
        decreases keys
      {
        var key :| key in keys;
        // `errors[key]` is truthy: `isValid = false; break`
        isValid := false;
        keys := keys - {key};
      }
    }
  }

  function EntriesOf(each: ErrorsEach): seq<IndexedErrorOf> {
    if each.ErrorsEach? then each.entries else []
  }


  // ---------------------------------------------------------------------------
  // The element loop of the array branches

  /** One pass of the element loop: a throw before or at this element propagates, an
      element without errors leaves the list as it was, and one with errors appends its
      entry (index, error object, element). */
  function EachStep(prev: Outcome<ErrorsEach>, e: Outcome<Option<ErrorOf>>, index: nat, element: Value): Outcome<ErrorsEach> {
    var p :- prev;
    var err :- e;
    Ok(if err.None? then p else ErrorsEach(EntriesOf(p) + [IndexedErrorOf(index, err.value, element)]))
  }

  /** The element loop over element results computed beforehand. */
  function Collect(outs: seq<Outcome<Option<ErrorOf>>>, elems: seq<Value>): Outcome<ErrorsEach>
    requires |outs| <= |elems|
  {
    if outs == [] then Ok(NoErrorsEach)
    else
      var n := |outs|;
      EachStep(Collect(outs[..n - 1], elems), outs[n - 1], n - 1, elems[n - 1])
  }

  /** One unfolding of the element loop. */
  lemma CollectStep(outs: seq<Outcome<Option<ErrorOf>>>, elems: seq<Value>)
    requires 0 < |outs| <= |elems|
    ensures Collect(outs, elems) == EachStep(Collect(outs[..|outs| - 1], elems), outs[|outs| - 1], |outs| - 1, elems[|outs| - 1])
  {
  }

  /** The element loop throws iff some element throws. */
  lemma {:induction false} CollectOk(outs: seq<Outcome<Option<ErrorOf>>>, elems: seq<Value>)
    requires |outs| <= |elems|
    ensures Collect(outs, elems).Ok? <==> forall i :: 0 <= i < |outs| ==> outs[i].Ok?
    decreases |outs|
  {
    if outs != [] {
      var pouts := outs[..|outs| - 1];
      CollectOk(pouts, elems);
      assert forall i :: 0 <= i < |pouts| ==> pouts[i] == outs[i];
    }
  }

  /** Every recorded entry is the defined error object of the element at its index. */
  lemma {:induction false} CollectSound(outs: seq<Outcome<Option<ErrorOf>>>, elems: seq<Value>)
    requires |outs| <= |elems| && Collect(outs, elems).Ok?
    ensures var es := EntriesOf(Collect(outs, elems).value);
            && IndicesIncrease(es)
            && forall j :: 0 <= j < |es| ==>
                 && es[j].index < |outs|
                 && es[j].validatedObject == elems[es[j].index]
                 && outs[es[j].index] == Ok(Some(es[j].errors))
    decreases |outs|
  {
    if outs != [] {
      var pouts := outs[..|outs| - 1];
      CollectSound(pouts, elems);
      var ps := EntriesOf(Collect(pouts, elems).value);
      assert forall j :: 0 <= j < |ps| ==> pouts[ps[j].index] == outs[ps[j].index];
    }
  }

  /** Every element whose error object is defined is recorded. */
  lemma {:induction false} CollectComplete(outs: seq<Outcome<Option<ErrorOf>>>, elems: seq<Value>)
    requires |outs| <= |elems| && Collect(outs, elems).Ok?
    ensures var each := Collect(outs, elems).value;
            var es := EntriesOf(each);
            && (forall i :: 0 <= i < |outs| && outs[i] != Ok(None) ==> exists j :: 0 <= j < |es| && es[j].index == i)
            && (each.ErrorsEach? ==> |es| > 0)
            && (each.NoErrorsEach? ==> forall i :: 0 <= i < |outs| ==> outs[i] == Ok(None))
    decreases |outs|
  {
    if outs != [] {
      var n := |outs|;
      var pouts := outs[..n - 1];
      CollectComplete(pouts, elems);
      var ps := EntriesOf(Collect(pouts, elems).value);
      var es := EntriesOf(Collect(outs, elems).value);
      assert ps == es[..|ps|];
      forall i | 0 <= i < n && outs[i] != Ok(None)
        ensures exists j :: 0 <= j < |es| && es[j].index == i
      {
        if i < n - 1 {
          assert pouts[i] == outs[i];
          var j :| 0 <= j < |ps| && ps[j].index == i;
          assert es[j] == ps[j];
        } else {
          assert es[|es| - 1].index == n - 1;
        }
      }
      assert forall i :: 0 <= i < n - 1 ==> pouts[i] == outs[i];
    }
  }

  /** What the element loop keeps of element results computed beforehand. */
  lemma CollectExact(outs: seq<Outcome<Option<ErrorOf>>>, elems: seq<Value>)
    requires |outs| == |elems| && Collect(outs, elems).Ok?
    ensures var each := Collect(outs, elems).value;
            var es := EntriesOf(each);
            && (forall i :: 0 <= i < |outs| ==> outs[i].Ok?)
            && (forall j :: 0 <= j < |es| ==>
                  && es[j].index < |elems|
                  && es[j].validatedObject == elems[es[j].index]
                  && outs[es[j].index] == Ok(Some(es[j].errors)))
            && (forall i :: 0 <= i < |outs| && outs[i] != Ok(None) ==> exists j :: 0 <= j < |es| && es[j].index == i)
            && IndicesIncrease(es)
            && (each.ErrorsEach? <==> exists i :: 0 <= i < |outs| && outs[i] != Ok(None))
  {
    CollectOk(outs, elems);
    CollectSound(outs, elems);
    CollectComplete(outs, elems);
    var each := Collect(outs, elems).value;
    if each.ErrorsEach? {
      var i := EntriesOf(each)[0].index;
      assert outs[i] != Ok(None);
    }
  }

}
