/**
 * The constraint declarations of the System bundle
 * (dist/system/miruken-validate.js:330-349, 425-522): the `constraint`
 * decorator, which records a property's constraint spec, and the builders
 * (`email`, `length.*`, `matches`, `includes`, `excludes`, `number.*`,
 * `required`, `url.*`, `applyConstraints`), each of which is `constraint`
 * applied to one fixed spec.
 */
module Constraints {
  import opened Wrappers
  import opened Js

  /** The names of the validators validate.js itself provides. */
  const STANDARD: set<string> :=
    {"date", "datetime", "email", "equality", "exclusion", "format", "inclusion", "length", "numericality", "presence", "url"}

  /** A constraint builder together with its arguments. */
  datatype Builder =
    | Email
    | LengthIs(len: Value)
    | LengthAtLeast(len: Value)
    | LengthAtMost(len: Value)
    | Matches(pattern: Value, flags: Value)
    | Includes(members: Value)
    | Excludes(members: Value)
    | Number
    | NumberStrict
    | NumberOnlyInteger
    | NumberEqualTo(v: Value)
    | NumberGreaterThan(v: Value)
    | NumberGreaterThanOrEqualTo(v: Value)
    | NumberLessThan(v: Value)
    | NumberLessThanOrEqualTo(v: Value)
    | NumberDivisibleBy(v: Value)
    | NumberOdd
    | NumberEven
    | Required
    | Url
    | UrlSchemes(schemes: Value)
    | UrlAllowLocal(allowLocal: Value)
    | ApplyConstraints

  /** An options object with one field. */
  function Opt(name: string, v: Value): Value {
    Dict(map[name := v])
  }

  /** The validator a builder configures. */
  function ValidatorOf(b: Builder): string {
    match b
    case Email => "email"
    case LengthIs(_) => "length"
    case LengthAtLeast(_) => "length"
    case LengthAtMost(_) => "length"
    case Matches(_, _) => "format"
    case Includes(_) => "inclusion"
    case Excludes(_) => "exclusion"
    case Required => "presence"
    case Url => "url"
    case UrlSchemes(_) => "url"
    case UrlAllowLocal(_) => "url"
    case ApplyConstraints => "nested"
    case _ => "numericality"
  }

  /** The options a builder passes to its validator. */
  function OptionsOf(b: Builder): Value {
    match b
    case Email => Bool(true)
    case LengthIs(len) => Opt("is", len)
    case LengthAtLeast(len) => Opt("minimum", len)
    case LengthAtMost(len) => Opt("maximum", len)
    case Matches(pattern, _) => pattern
    case Includes(members) => members
    case Excludes(members) => members
    case Number => Opt("noStrings", Bool(true))
    case NumberStrict => Opt("strict", Bool(true))
    case NumberOnlyInteger => Opt("onlyInteger", Bool(true))
    case NumberEqualTo(v) => Opt("equalTo", v)
    case NumberGreaterThan(v) => Opt("greaterThan", v)
    case NumberGreaterThanOrEqualTo(v) => Opt("greaterThanOrEqualTo", v)
    case NumberLessThan(v) => Opt("lessThan", v)
    case NumberLessThanOrEqualTo(v) => Opt("lessThanOrEqualTo", v)
    case NumberDivisibleBy(v) => Opt("divisibleBy", v)
    case NumberOdd => Opt("odd", Bool(true))
    case NumberEven => Opt("even", Bool(true))
    case Required => Bool(true)
    case Url => Bool(true)
    case UrlSchemes(s) => Opt("schemes", s)
    case UrlAllowLocal(a) => Opt("allowLocal", a)
    case ApplyConstraints => Bool(true)
  }

  /**
   * The spec a builder records: its validator with its options; `matches`
   * adds `flags` beside `format` when the flags are truthy.
   */
  function SpecOf(b: Builder): (r: Spec)
    ensures ValidatorOf(b) in r && r[ValidatorOf(b)] == OptionsOf(b)
    ensures b.Matches? && Truthy(b.flags) ==> r.Keys == {"format", "flags"} && r["flags"] == b.flags
    ensures !(b.Matches? && Truthy(b.flags)) ==> r.Keys == {ValidatorOf(b)}
  {
    var criteria := map[ValidatorOf(b) := OptionsOf(b)];
    if b.Matches? && Truthy(b.flags) then criteria["flags" := b.flags] else criteria
  }

  /**
   * `matches(pattern, flags)` as validate.js's `format` validator reads its
   * options: the flags belong inside the options, next to the pattern.
   */
  function MatchesIntended(pattern: Value, flags: Value): (r: Spec)
    ensures r.Keys == {"format"}
    ensures Truthy(flags) ==> r["format"] == Dict(map["pattern" := pattern, "flags" := flags])
    ensures !Truthy(flags) ==> r["format"] == pattern
  {
    if Truthy(flags) then map["format" := Dict(map["pattern" := pattern, "flags" := flags])]
    else map["format" := pattern]
  }

  /** The specs the `length` builders record, written out. */
  lemma LengthSpecs(x: Value)
    ensures SpecOf(LengthIs(x)) == map["length" := Dict(map["is" := x])]
    ensures SpecOf(LengthAtLeast(x)) == map["length" := Dict(map["minimum" := x])]
    ensures SpecOf(LengthAtMost(x)) == map["length" := Dict(map["maximum" := x])]
  {
  }

  /** The spec `matches(pattern, flags)` records, written out. */
  lemma MatchesSpecs(pattern: Value, flags: Value)
    ensures !Truthy(flags) ==> SpecOf(Matches(pattern, flags)) == map["format" := pattern]
    ensures Truthy(flags) ==> SpecOf(Matches(pattern, flags)) == map["format" := pattern, "flags" := flags]
  {
  }

  /** The specs some of the `number` builders record, written out. */
  lemma NumberSpecs(x: Value)
    ensures SpecOf(Number) == map["numericality" := Dict(map["noStrings" := Bool(true)])]
    ensures SpecOf(NumberGreaterThan(x)) == map["numericality" := Dict(map["greaterThan" := x])]
    ensures SpecOf(NumberOdd) == map["numericality" := Dict(map["odd" := Bool(true)])]
  {
  }

  /** The specs `includes` and `excludes` record, written out. */
  lemma MembershipSpecs(x: Value)
    ensures SpecOf(Includes(x)) == map["inclusion" := x] && SpecOf(Excludes(x)) == map["exclusion" := x]
  {
  }

  /** The specs the `url` builders record, written out. */
  lemma UrlSpecs(x: Value)
    ensures SpecOf(Url) == map["url" := Bool(true)]
    ensures SpecOf(UrlSchemes(x)) == map["url" := Dict(map["schemes" := x])]
  {
  }

  /** The specs `required` and `applyConstraints` record, written out. */
  lemma PresenceSpecs()
    ensures SpecOf(Required) == map["presence" := Bool(true)]
    ensures SpecOf(ApplyConstraints) == map["nested" := Bool(true)]
  {
  }

  /** Every builder names a standard validator (or `nested`), the source of truth for which validators need no forwarding. */
  lemma BuildersNameStandardValidators(b: Builder)
    ensures ValidatorOf(b) in STANDARD || ValidatorOf(b) == "nested"
    ensures ValidatorOf(b) == "nested" <==> b.ApplyConstraints?
  {
  }

  /** `matches` with truthy flags records a constraint name that is not a validator of validate.js. */
  lemma MatchesWithFlagsNamesUnknownValidator(pattern: Value, flags: Value)
    requires Truthy(flags)
    ensures "flags" in SpecOf(Matches(pattern, flags)) && "flags" !in STANDARD
  {
  }

  /** The intended `matches` records only the standard `format` validator, flags or not. */
  lemma MatchesIntendedNamesOnlyFormat(pattern: Value, flags: Value)
    ensures forall n :: n in MatchesIntended(pattern, flags) ==> n in STANDARD
  {
  }

  // ---------------------------------------------------------------------
  // The `constraint` decorator

  /** What a decorator sees of a class member: its getter, its value and its field initializer. */
  datatype MemberDescriptor = MemberDescriptor(get: Value, value: Value, initializer: Value)

  /**
   * `constraint(c)` applied to member `key`: the declaration it records, if
   * any. `hasMeta` says whether the class carries metadata (`$meta(target)`).
   */
  function Declare(c: Spec, key: string, d: MemberDescriptor, hasMeta: bool): (r: Option<Descriptor>)
    ensures r.Some? <==> key != "constructor" && (Truthy(d.get) || Truthy(d.value) || Truthy(d.initializer)) && hasMeta
    ensures r.Some? ==> r.value.key == key && r.value.validate == c
  {
    if key == "constructor" then None
    else if !Truthy(d.get) && !Truthy(d.value) && !Truthy(d.initializer) then None
    else if hasMeta then Some(Descriptor(key, c))
    else None
  }
}
