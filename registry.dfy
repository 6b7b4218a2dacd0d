/**
 * The validator table of validate.js as this library fills it: the
 * `$registerValidators` macro (src/validate-js.js:46-72), the
 * `customValidator` member hook with its collision renaming
 * (dist/system/miruken-validate.js:56-90), the forwarding validators that
 * constraint building installs for unknown names (src/validate-js.js:219-227,
 * dist/system/miruken-validate.js:153-163), the `$validateThat` macro
 * (dist/amd/miruken-validate.js:185-208) and the `validateThat` decorator
 * guard (dist/system/miruken-validate.js:207-210).
 */
module Registry {
  import opened Wrappers
  import opened Js
  import Constraints

  /** What the table holds under a name. */
  datatype ValidatorFn =
    | Standard(name: string)
      // a validator of validate.js itself
    | Ignore
      // `nested`, set to the no-op `Undefined`
    | Plain(fn: Value)
      // a registered function, called as it is
    | Injecting(dependencies: seq<Value>, fn: Value)
      // resolves its dependencies through the composer, then calls `fn`
    | Forwarding(name: string, checksValidate: bool)
      // resolves a validator called `name` through the composer and calls its `validate`

  /** The table when the library is loaded: validate.js's validators, and `nested` as a no-op. */
  function Initial(): (r: map<string, ValidatorFn>)
    ensures r.Keys == Constraints.STANDARD + {"nested"}
  {
    (map n | n in Constraints.STANDARD :: Standard(n))["nested" := Ignore]
  }

  /**
   * An entry of a registration: a function, or an array whose last element
   * is the function and whose other elements are its dependencies. Anything
   * else (including an empty array) registers nothing.
   */
  function Prepare(v: Value): (r: Option<ValidatorFn>)
    ensures r.Some? <==> IsFunction(v) || (v.Arr? && |v.elems| > 0 && IsFunction(v.elems[|v.elems| - 1]))
    ensures r.Some? && v.Arr? && |v.elems| > 1 ==> r.value == Injecting(v.elems[..|v.elems| - 1], v.elems[|v.elems| - 1])
    ensures r.Some? && v.Arr? && |v.elems| == 1 ==> r.value == Plain(v.elems[0])
    ensures r.Some? && !v.Arr? ==> r.value == Plain(v)
  {
    match v
    case Arr(elems) =>
      if |elems| == 0 || !IsFunction(elems[|elems| - 1]) then None
      else if |elems| > 1 then Some(Injecting(elems[..|elems| - 1], elems[|elems| - 1]))
      else Some(Plain(elems[0]))
    case Fn(_) => Some(Plain(v))
    case _ => None
  }

  // ---------------------------------------------------------------------
  // `$registerValidators`

  /** The steps a meta macro is run at. */
  datatype MetaStep = Subclass | Implement | Extend

  /** The table after registering the members of `definition` named in `keys`, in order. */
  function Register(validators: map<string, ValidatorFn>, definition: Object, keys: seq<string>): map<string, ValidatorFn>
    decreases |keys|
  {
    if keys == [] then validators
    else
      var p := Prepare(Get(definition, keys[0]));
      Register(if p.Some? then validators[keys[0] := p.value] else validators, definition, keys[1..])
  }

  /**
   * Registration puts every member that is a function (or a function with
   * dependencies) into the table under its own name, replacing whatever was
   * there; it leaves every other name as it was.
   */
  lemma {:induction false} RegisterEffect(validators: map<string, ValidatorFn>, definition: Object, keys: seq<string>, n: string)
    ensures var r := Register(validators, definition, keys);
      && (n in keys && Prepare(Get(definition, n)).Some? ==> n in r && r[n] == Prepare(Get(definition, n)).value)
      && (!(n in keys && Prepare(Get(definition, n)).Some?) ==> (n in r <==> n in validators) && (n in r ==> r[n] == validators[n]))
    decreases |keys|
  {
    if keys != [] {
      var p := Prepare(Get(definition, keys[0]));
      var v' := if p.Some? then validators[keys[0] := p.value] else validators;
      RegisterEffect(v', definition, keys[1..], n);
      assert n in keys <==> n == keys[0] || n in keys[1..];
    }
  }

  // ---------------------------------------------------------------------
  // `_customValidatorMethod`

  /** What the hook sees of a class member. */
  datatype Member = Member(enumerable: bool, value: Value)

  /**
   * The hook on one member `key` of a `customValidator` class: the new
   * table, the new counter and the name the member was registered under.
   * Non-enumerable members, `constructor` and non-functions are skipped; a
   * name already in the table is replaced by `key-<counter>` and the counter
   * moves on.
   */
  function CustomRegister(validators: map<string, ValidatorFn>, counter: nat, key: string, m: Member, dependencies: seq<Value>)
    : (r: (map<string, ValidatorFn>, nat, Option<string>))
    ensures r.2.None? <==> !m.enumerable || key == "constructor" || !IsFunction(m.value)
    ensures r.2.None? ==> r.0 == validators && r.1 == counter
    ensures r.2.Some? ==> r.0 == validators[r.2.value := CustomFn(m.value, dependencies)]
    ensures r.2.Some? && key !in validators ==> r.2.value == key && r.1 == counter
    ensures r.2.Some? && key in validators ==> r.2.value == Renamed(key, counter) && r.1 == counter + 1
  {
    if !m.enumerable || key == "constructor" then (validators, counter, None)
    else if !IsFunction(m.value) then (validators, counter, None)
    else if key in validators then
      (validators[Renamed(key, counter) := CustomFn(m.value, dependencies)], counter + 1, Some(Renamed(key, counter)))
    else (validators[key := CustomFn(m.value, dependencies)], counter, Some(key))
  }

  /** The registered function: wrapped to resolve its injected dependencies when it has any. */
  function CustomFn(fn: Value, dependencies: seq<Value>): ValidatorFn {
    if |dependencies| > 0 then Injecting(dependencies, fn) else Plain(fn)
  }

  /**
   * The hook never replaces the validator registered under the member's own
   * name; every other name but the one it registers keeps its validator.
   */
  lemma CustomRegisterKeepsOthers(validators: map<string, ValidatorFn>, counter: nat, key: string, m: Member, dependencies: seq<Value>, n: string)
    requires n in validators
    ensures var r := CustomRegister(validators, counter, key, m, dependencies);
      n in r.0 && (n == key || r.2 != Some(n) ==> r.0[n] == validators[n])
  {
    var r := CustomRegister(validators, counter, key, m, dependencies);
    if r.2.Some? && key in validators {
      assert |r.2.value| > |key|;
    }
  }

  /**
   * As written, the renamed name is not checked against the table: with `v`
   * and `v-0` registered and the counter at 0, a custom member `v` replaces
   * the validator registered as `v-0`.
   */
  lemma CustomRegisterOverwrites()
    ensures var validators := map["v" := Standard("v"), "v-0" := Standard("v-0")];
      var r := CustomRegister(validators, 0, "v", Member(true, Fn(0)), []);
      r.2 == Some("v-0") && r.0["v-0"] != validators["v-0"]
  {
    assert Digit(0) == '0';
    assert Renamed("v", 0) == "v-0";
  }

  /** 10 to the power `k`. */
  function Pow10(k: nat): (r: nat)
    ensures r >= 1
  {
    if k == 0 then 1 else 10 * Pow10(k - 1)
  }

  /** A number of at least `10^k` has more than `k` digits. */
  lemma {:induction false} NatToStringWidth(n: nat, k: nat)
    requires n >= Pow10(k)
    ensures |NatToString(n)| > k
  {
    if k > 0 {
      assert n / 10 >= Pow10(k - 1);
      NatToStringWidth(n / 10, k - 1);
    }
  }

  /** The length of the longest name in `names`. */
  ghost function MaxLen(names: set<string>): (r: nat)
    ensures forall n :: n in names ==> |n| <= r
    decreases names
  {
    if names == {} then 0
    else
      var n :| n in names;
      var m := MaxLen(names - {n});
      if |n| > m then |n| else m
  }

  /** The renamed name `key-c` of counter value `c`. */
  function Renamed(key: string, c: nat): string {
    key + "-" + NatToString(c)
  }

  /** A counter at `c` or above whose renamed name is not yet in the table exists below this bound. */
  ghost function RenameBound(validators: map<string, ValidatorFn>, c: nat): int {
    Pow10(MaxLen(validators.Keys)) - c
  }

  /** A renamed name that is in the table was made from a counter below the bound. */
  lemma RenamedTakenBelowBound(validators: map<string, ValidatorFn>, key: string, c: nat)
    requires Renamed(key, c) in validators
    ensures RenameBound(validators, c) > 0
  {
    var bound := MaxLen(validators.Keys);
    assert |Renamed(key, c)| <= bound;
    if c >= Pow10(bound) {
      NatToStringWidth(c, bound);
      assert false;
    }
  }

  /**
   * The first counter value from `c` on whose renamed name is free, and the
   * counter after it: every value skipped names a validator already in the
   * table.
   */
  function FreshCounter(validators: map<string, ValidatorFn>, key: string, c: nat): (r: nat)
    ensures r >= c && Renamed(key, r) !in validators
    ensures forall c' :: c <= c' < r ==> Renamed(key, c') in validators
    decreases RenameBound(validators, c)
  {
    if Renamed(key, c) !in validators then c
    else
      RenamedTakenBelowBound(validators, key, c);
      FreshCounter(validators, key, c + 1)
  }

  /** The search for the first free renamed name, from counter `c` on. */
  method FindFreeCounter(validators: map<string, ValidatorFn>, key: string, c: nat) returns (r: nat)
    ensures r == FreshCounter(validators, key, c)
  {
    r := c;
    while Renamed(key, r) in validators
      invariant r >= c
      invariant FreshCounter(validators, key, r) == FreshCounter(validators, key, c)
      decreases RenameBound(validators, r)
    {
      RenamedTakenBelowBound(validators, key, r);
      r := r + 1;
    }
  }

  /**
   * The hook with the renaming it evidently intends: a name already in the
   * table is replaced by the first `key-<counter>` not in the table either,
   * so no registered validator is ever replaced.
   */
  function CustomRegisterFresh(validators: map<string, ValidatorFn>, counter: nat, key: string, m: Member, dependencies: seq<Value>)
    : (r: (map<string, ValidatorFn>, nat, Option<string>))
    ensures r.2.None? <==> !m.enumerable || key == "constructor" || !IsFunction(m.value)
    ensures r.2.None? ==> r.0 == validators && r.1 == counter
    ensures r.2.Some? ==> r.2.value !in validators && r.0 == validators[r.2.value := CustomFn(m.value, dependencies)]
    ensures forall n :: n in validators ==> n in r.0 && r.0[n] == validators[n]
    ensures r.2.Some? && key !in validators ==> r.2.value == key && r.1 == counter
    ensures r.2.Some? && key in validators ==> r.1 > counter && r.2.value == Renamed(key, r.1 - 1)
  {
    if !m.enumerable || key == "constructor" then (validators, counter, None)
    else if !IsFunction(m.value) then (validators, counter, None)
    else if key in validators then
      var c := FreshCounter(validators, key, counter);
      (validators[Renamed(key, c) := CustomFn(m.value, dependencies)], c + 1, Some(Renamed(key, c)))
    else (validators[key := CustomFn(m.value, dependencies)], counter, Some(key))
  }

  // ---------------------------------------------------------------------
  // The registry object

  class ValidatorRegistry {
    /** `validatejs.validators`. */
    var validators: map<string, ValidatorFn>
    /** The module-level `counter` of the renaming. */
    var counter: nat

    constructor ()
      ensures validators == Initial() && counter == 0
    {
      validators := Initial();
      counter := 0;
    }

    /** `$registerValidators.execute`: register the definition's members at the Subclass and Implement steps only. */
    method RegisterValidators(step: MetaStep, definition: Object)
      modifies this
      ensures counter == old(counter)
      ensures step == Extend ==> validators == old(validators)
      ensures step != Extend ==> validators == Register(old(validators), definition, definition.enumKeys)
    {
      if step == Subclass || step == Implement {
        var keys := definition.enumKeys;
        var i := 0;
        while i < |keys|
          invariant 0 <= i <= |keys| && counter == old(counter)
          invariant Register(validators, definition, keys[i..]) == Register(old(validators), definition, keys)
        {
          var name := keys[i];
          var validator := Prepare(Get(definition, name));
          assert keys[i..][1..] == keys[i + 1..];
          if validator.Some? {
            validators := validators[name := validator.value];
          }
          i := i + 1;
        }
      }
    }

    /**
     * `_customValidatorMethod` on member `key`, with the collision renaming
     * corrected (see `CustomRegisterFresh`); returns the name it registered, if any.
     */
    method CustomValidatorMethod(key: string, m: Member, dependencies: seq<Value>) returns (name: Option<string>)
      modifies this
      ensures (validators, counter, name) == CustomRegisterFresh(old(validators), old(counter), key, m, dependencies)
    {
      if !m.enumerable || key == "constructor" {
        return None;
      }
      if !IsFunction(m.value) {
        return None;
      }
      var fn := if |dependencies| > 0 then Injecting(dependencies, m.value) else Plain(m.value);
      var table := validators;
      var k := key;
      if k in table {
        var c := FindFreeCounter(table, key, counter);
        k := Renamed(key, c);
        counter := c + 1;
      }
      validators := table[k := fn];
      name := Some(k);
    }
  }

  // ---------------------------------------------------------------------
  // Forwarding validators

  /** What the composer resolved for a validator name: whether it has a `validate` function. */
  datatype Resolved = Resolved(hasValidate: bool)

  /**
   * A call of `Forwarding(name, checksValidate)`: `resolved` is what
   * `$composer && $composer.resolve(name)` produced (None when there is no
   * composer or nothing is resolved). Ok means the call was handed on to the
   * resolved validator's `validate`. The System bundle checks for `validate`
   * first; the other forwarder calls it unchecked, and the host's TypeError
   * for calling a missing function is the error.
   */
  function Forward(name: string, checksValidate: bool, resolved: Option<Resolved>): (r: Result<(), string>)
    ensures r.Ok? <==> resolved.Some? && resolved.value.hasValidate
    ensures resolved.None? ==> r == Err("Unable to resolve validator '" + name + "'.")
    ensures resolved.Some? && r.Err? && checksValidate ==> r == Err("Validator '" + name + "' is missing 'validate' method.")
    ensures resolved.Some? && r.Err? && !checksValidate ==> r == Err(NOT_A_FUNCTION)
  {
    if resolved.None? then Err("Unable to resolve validator '" + name + "'.")
    else if !resolved.value.hasValidate then
      if checksValidate then Err("Validator '" + name + "' is missing 'validate' method.") else Err(NOT_A_FUNCTION)
    else Ok(())
  }

  /** The host's TypeError message for calling `validator.validate` when it is not a function. */
  const NOT_A_FUNCTION := "validator.validate is not a function"

  /**
   * The two forwarders behave alike: both hand on exactly the same calls,
   * fail the same way when nothing resolves, and differ only in the message
   * for a resolved validator without `validate`.
   */
  lemma ForwardVariantsAgree(name: string, resolved: Option<Resolved>)
    ensures Forward(name, true, resolved).Ok? == Forward(name, false, resolved).Ok?
    ensures Forward(name, true, resolved) != Forward(name, false, resolved) <==>
              resolved.Some? && !resolved.value.hasValidate
  {
    if resolved.Some? && !resolved.value.hasValidate {
      var m := "Validator '" + name + "' is missing 'validate' method.";
      assert m[..10] == "Validator ";
      assert NOT_A_FUNCTION[..10] == "validator.";
      assert m != NOT_A_FUNCTION;
    }
  }

  // ---------------------------------------------------------------------
  // `$validateThat` and the `validateThat` decorator

  /** `toUpperCase` of one character, for the ASCII letters. */
  function Upper(c: char): char {
    if 'a' <= c <= 'z' then (c as int - 'a' as int + 'A' as int) as char else c
  }

  /** The member name a `$validateThat` entry gets: the prefix, then the name with its first letter capitalised. */
  function ValidateThatName(n: string): (r: string)
    ensures IsValidateThat(r)
    ensures |r| == |VALIDATE_THAT| + |n|
    ensures r[|VALIDATE_THAT|..] == if n == "" then "" else [Upper(n[0])] + n[1..]
  {
    VALIDATE_THAT + (if n == "" then "" else [Upper(n[0])] + n[1..])
  }

  /** The members the macro installs for the entries of `definition` named in `keys`, added to `members`. */
  function ValidateThatMembers(members: map<string, ValidatorFn>, definition: Object, keys: seq<string>): map<string, ValidatorFn>
    decreases |keys|
  {
    if keys == [] then members
    else
      var p := Prepare(Get(definition, keys[0]));
      ValidateThatMembers(if p.Some? then members[ValidateThatName(keys[0]) := p.value] else members, definition, keys[1..])
  }

  /**
   * Every member the macro installs is named with the `validateThat` prefix,
   * so the validation sweep finds it; each entry that is a function (or a
   * function with dependencies) is installed.
   */
  lemma {:induction false} ValidateThatMembersArePrefixed(members: map<string, ValidatorFn>, definition: Object, keys: seq<string>)
    requires forall n :: n in members ==> IsValidateThat(n)
    ensures forall n :: n in ValidateThatMembers(members, definition, keys) ==> IsValidateThat(n)
    ensures forall k :: k in keys && Prepare(Get(definition, k)).Some? ==> ValidateThatName(k) in ValidateThatMembers(members, definition, keys)
    decreases |keys|
  {
    if keys != [] {
      var p := Prepare(Get(definition, keys[0]));
      var m' := if p.Some? then members[ValidateThatName(keys[0]) := p.value] else members;
      ValidateThatMembersArePrefixed(m', definition, keys[1..]);
      if p.Some? {
        ValidateThatMembersGrow(m', definition, keys[1..], ValidateThatName(keys[0]));
      }
    }
  }

  lemma {:induction false} ValidateThatMembersGrow(members: map<string, ValidatorFn>, definition: Object, keys: seq<string>, n: string)
    requires n in members
    ensures n in ValidateThatMembers(members, definition, keys)
    decreases |keys|
  {
    if keys != [] {
      var p := Prepare(Get(definition, keys[0]));
      ValidateThatMembersGrow(if p.Some? then members[ValidateThatName(keys[0]) := p.value] else members, definition, keys[1..], n);
    }
  }

  /** `$validateThat.execute`: the loop that turns the `$validateThat` entries of `definition` into members. */
  method ExpandValidateThat(definition: Object) returns (members: map<string, ValidatorFn>)
    ensures members == ValidateThatMembers(map[], definition, definition.enumKeys)
  {
    members := map[];
    var keys := definition.enumKeys;
    var i := 0;
    while i < |keys|
      invariant 0 <= i <= |keys|
      invariant ValidateThatMembers(members, definition, keys[i..]) == ValidateThatMembers(map[], definition, keys)
    {
      var validator := Prepare(Get(definition, keys[i]));
      assert keys[i..][1..] == keys[i + 1..];
      if validator.Some? {
        members := members[ValidateThatName(keys[i]) := validator.value];
      }
      i := i + 1;
    }
  }

  /** The `validateThat` decorator records member `key` only when it has a name other than `constructor` and is a function. */
  function DecorateValidateThat(key: string, value: Value, hasMeta: bool): (recorded: bool)
    ensures recorded <==> key != "" && key != "constructor" && IsFunction(value) && hasMeta
  {
    if key == "" || key == "constructor" then false
    else if !IsFunction(value) then false
    else hasMeta
  }
}
