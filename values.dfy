/** JavaScript values as the validators see them. */
module Values {
  import opened Wrappers

  /** A JavaScript value. Numbers are integers (NaN, infinities and fractions are not
      modelled); a `Date` carries its millisecond timestamp; an object is the map of its
      own enumerable properties. */
  datatype Value =
    | Undefined
    | Null
    | Bool(b: bool)
    | Num(n: int)
    | Str(s: string)
    | Date(time: int)
    | Arr(elems: seq<Value>)
    | Obj(fields: map<string, Value>)

  /** JavaScript truthiness: `undefined`, `null`, `false`, `0` and `""` are falsy;
      every object, array and date is truthy, even when empty. */
  predicate Truthy(v: Value) {
    match v
    case Undefined => false
    case Null => false
    case Bool(b) => b
    case Num(n) => n != 0
    case Str(s) => s != ""
    case _ => true
  }

  /** Reading a property of these throws a TypeError. */
  predicate IsNullish(v: Value) {
    v.Undefined? || v.Null?
  }

  /** `typeof v === "object"` (which includes `null` and arrays). */
  predicate IsTypeofObject(v: Value) {
    v.Null? || v.Date? || v.Arr? || v.Obj?
  }

  /** `v[key]` for a value that is not nullish: an own property of an object, and
      `undefined` otherwise. */
  function Get(v: Value, key: string): (r: Value)
    ensures r.Undefined? || r < v
  {
    if v.Obj? && key in v.fields then v.fields[key] else Undefined
  }

  /** A character outside the Basic Multilingual Plane is stored as a surrogate pair. */
  predicate IsAstral(c: char) {
    c as int >= 0x1_0000
  }

  /** The `length` of a JavaScript string: the number of UTF-16 code units, two for
      every character outside the Basic Multilingual Plane. */
  function Utf16Length(s: string): (n: nat)
    ensures |s| <= n <= 2 * |s|
    ensures n == |s| <==> forall i :: 0 <= i < |s| ==> !IsAstral(s[i])
  {
    if s == [] then 0
    else
      var rest := s[..|s| - 1];
      assert forall i :: 0 <= i < |rest| ==> rest[i] == s[i];
      Utf16Length(rest) + (if IsAstral(s[|s| - 1]) then 2 else 1)
  }

  /** `v.length` when it is a number: arrays, strings (in UTF-16 code units) and objects
      with a numeric `length` property. */
  function LengthOf(v: Value): Option<int>
  {
    match v
    case Arr(es) => Some(|es|)
    case Str(s) => Some(Utf16Length(s))
    case Obj(m) => if "length" in m && m["length"].Num? then Some(m["length"].n) else None
    case _ => None
  }

  /** The number a relational comparison converts `v` to, or `None` for NaN. */
  function NumberOf(v: Value): Option<int>
  {
    match v
    case Num(n) => Some(n)
    case Bool(b) => Some(if b then 1 else 0)
    case Date(t) => Some(t)
    case Null => Some(0)
    case _ => None
  }

  /** The first part of the termination measure: the validators descend only into truthy
      sub-values and array elements, and `undefined` (what a missing key reads as) is
      where it stops. */
  function Defined(v: Value): nat {
    if v.Undefined? then 0 else 1
  }

}
