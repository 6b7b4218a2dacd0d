/**
 * The JavaScript values the validation core inspects, and the few dynamic
 * tests it applies to them (truthiness, `$isNothing`, `$isPromise`,
 * `$isFunction`, `Array.isArray`).
 */
module Js {
  import opened Wrappers

  /** A JavaScript value, as far as the validation core can tell values apart. */
  datatype Value =
    | Undefined
    | Null
    | Bool(b: bool)
    | Num(n: int)
    | Str(s: string)
    | Arr(elems: seq<Value>)
    | Obj(obj: Object)
    | Dict(fields: map<string, Value>)
    | Fn(fid: nat)
    | Promise(pid: nat)

  /**
   * An object: its identity, the keys a `for ... in` loop visits (own and
   * inherited enumerable keys, in enumeration order), its property values and
   * the per-property constraint declarations its class carries (None when the
   * class declares none).
   */
  datatype Object = Object(id: nat, enumKeys: seq<string>, props: map<string, Value>, meta: Option<seq<Descriptor>>)

  /** The declaration of one property: its key and its `validate` constraint spec. */
  datatype Descriptor = Descriptor(key: string, validate: Spec)

  /** A constraint spec: constraint name to configuration, e.g. {presence: true}. */
  type Spec = map<string, Value>

  /** JavaScript truthiness (numbers are modelled as integers, so NaN is absent). */
  predicate Truthy(v: Value) {
    match v
    case Undefined => false
    case Null => false
    case Bool(b) => b
    case Num(n) => n != 0
    case Str(s) => s != ""
    case _ => true
  }

  /** A value that can carry properties of its own (`Object.defineProperty` accepts it). */
  predicate IsObjectLike(v: Value) {
    !(v.Undefined? || v.Null? || v.Bool? || v.Num? || v.Str?)
  }

  /** `$isNothing`: undefined or null. */
  predicate IsNothing(v: Value) {
    v.Undefined? || v.Null?
  }

  /** `$isPromise`. */
  predicate IsPromise(v: Value) {
    v.Promise?
  }

  /** `$isFunction`. */
  predicate IsFunction(v: Value) {
    v.Fn?
  }

  /** `Array.isArray`. */
  predicate IsArray(v: Value) {
    v.Arr?
  }

  /** Property read `o[key]`: undefined when the key is absent. */
  function Get(o: Object, key: string): Value {
    if key in o.props then o.props[key] else Undefined
  }

  /** The decimal digits of `n`, as string concatenation writes a non-negative integer. */
  function NatToString(n: nat): (s: string)
    ensures |s| >= 1 && forall i :: 0 <= i < |s| ==> '0' <= s[i] <= '9'
  {
    if n < 10 then [Digit(n)] else NatToString(n / 10) + [Digit(n % 10)]
  }

  function Digit(d: nat): (c: char)
    requires d < 10
    ensures '0' <= c <= '9'
  {
    ['0', '1', '2', '3', '4', '5', '6', '7', '8', '9'][d]
  }

  /** `s.lastIndexOf(prefix, 0) == 0`, i.e. `s` starts with `prefix`. */
  predicate StartsWith(s: string, prefix: string) {
    |prefix| <= |s| && s[..|prefix|] == prefix
  }

  /** The prefix of the members that validate their own object. */
  const VALIDATE_THAT: string := "validateThat"

  predicate IsValidateThat(key: string) {
    StartsWith(key, VALIDATE_THAT)
  }
}
