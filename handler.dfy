/**
 * The handlers as objects that change state step by step: the validator
 * table of validate.js (a `ValidatorRegistry`), the result trees, and each
 * validated object's `$validation` binding (`bound`). Every method is
 * proved against the function of module Engine that states what it does.
 */
module Handlers {
  import opened Wrappers
  import opened Js
  import opened ResultTree
  import opened Results
  import opened Registry
  import opened Engine
  import opened Validations
  import ResultTreeFacts

  class ValidationCallbackHandler {
    /** validate.js and the object's own members, which the core calls but does not define. */
    const env: Env
    /** `validatejs.validators`. */
    const registry: ValidatorRegistry
    /** The `$validation` property of each object validated so far. */
    var bound: map<Value, Handle>

    constructor (env: Env, registry: ValidatorRegistry)
      ensures this.env == env && this.registry == registry && bound == map[]
    {
      this.env := env;
      this.registry := registry;
      bound := map[];
    }

    /** The state a validation with results in `store` works on. */
    function Now(store: ValidationResult): State
      reads this, registry, store
    {
      State(registry.validators, store.root, bound)
    }

    // -------------------------------------------------------------------
    // The validator's entry points

    /** The state a validation of results `h` starts from, before `Validation` supplies a fresh tree when none is given. */
    function Start(results: Option<Handle>): State
      reads this, registry, if results.Some? then {results.value.store} else {}
    {
      State(registry.validators, if results.Some? then results.value.store.root else Empty, bound)
    }

    /**
     * `validate(object, scope, results)`: a missing object throws; otherwise
     * a `Validation` is handled and its results, the given node or a fresh
     * tree, are returned. `used` is that node.
     */
    method Validate(v: Value, scope: Value, results: Option<Handle>) returns (r: Result<Handle, Error>, ghost used: Option<Handle>)
      requires results.Some? ==> results.value.store.Valid() && results.value.store.Has(results.value.path)
      modifies this, registry, if results.Some? then {results.value.store} else {}
      ensures IsNothing(v) <==> used.None?
      ensures IsNothing(v) ==> r == Err(MissingObject) && bound == old(bound) && registry.validators == old(registry.validators)
      ensures used.Some? && results.Some? ==> used.value == results.value
      ensures used.Some? && results.None? ==> fresh(used.value.store) && used.value.path == []
      ensures used.Some? ==>
        var (want, after) := Engine.Validate(env, old(Start(results)), used.value.store, used.value.path, v);
        && used.value.store.Valid() && after == Now(used.value.store)
        && (r.Ok? <==> want.Ok?) && (r.Ok? ==> r.value == used.value) && (r.Err? ==> r.error == want.error)
    {
      if IsNothing(v) {
        return Err(MissingObject), None;
      }
      var validation := new Validation(v, Bool(false), scope, results);
      var h := validation.results;
      used := Some(h);
      ResultTreeFacts.ResetIsValid();
      var r0 := ValidateAt(h.store, h.path, v);
      r := if r0.Ok? then Ok(h) else Err(r0.error);
    }

    /**
     * `validateAsync(object, scope, results)`: a missing object throws at
     * once; otherwise the promise settles as the asynchronous validation of a
     * new `Validation` does, and fulfils with its results `used`.
     */
    method ValidateAsync(v: Value, scope: Value, results: Option<Handle>) returns (a: AsyncResult, used: Option<Handle>)
      requires results.Some? ==> results.value.store.Valid() && results.value.store.Has(results.value.path)
      modifies this, registry, if results.Some? then {results.value.store} else {}
      ensures IsNothing(v) <==> used.None?
      ensures IsNothing(v) ==> a == Raised(MissingObject) && bound == old(bound) && registry.validators == old(registry.validators)
      ensures used.Some? && results.Some? ==> used.value == results.value
      ensures used.Some? && results.None? ==> fresh(used.value.store) && used.value.path == []
      ensures used.Some? ==>
        used.value.store.Valid()
        && (a, Now(used.value.store)) == Engine.ValidateAsync(env, old(Start(results)), used.value.store, used.value.path, v)
    {
      if IsNothing(v) {
        return Raised(MissingObject), None;
      }
      var validation := new Validation(v, Bool(true), scope, results);
      var h := validation.results;
      used := Some(h);
      ResultTreeFacts.ResetIsValid();
      a := ValidateAsyncAt(h.store, h.path, v);
    }

    /** `$valid(target, scope)`: whether the results of `validate(target, scope)` are valid. */
    method Valid(v: Value, scope: Value) returns (r: Result<bool, Error>, ghost used: Option<Handle>)
      modifies this, registry
      ensures IsNothing(v) <==> used.None?
      ensures IsNothing(v) ==> r == Err(MissingObject)
      ensures used.Some? ==>
        var (want, after) := Engine.Validate(env, old(Start(None)), used.value.store, [], v);
        && fresh(used.value.store) && used.value.path == [] && after == Now(used.value.store)
        && (r.Ok? <==> want.Ok?)
        && (r.Ok? ==> r.value == ResultTree.IsValid(used.value.store.root))
    {
      var res;
      res, used := Validate(v, scope, None);
      if res.Err? {
        return Err(res.error), used;
      }
      var b := res.value.store.IsValid(res.value.path);
      r := Ok(b);
    }

    /** `$validAsync(target, scope)`: the promise of whether the results of `validateAsync(target, scope)` are valid. */
    method ValidAsync(v: Value, scope: Value) returns (a: AsyncResult, valid: bool, ghost used: Option<Handle>)
      modifies this, registry
      ensures IsNothing(v) <==> used.None?
      ensures IsNothing(v) ==> a == Raised(MissingObject)
      ensures used.Some? ==>
        && fresh(used.value.store) && used.value.path == []
        && (a, Now(used.value.store)) == Engine.ValidateAsync(env, old(Start(None)), used.value.store, [], v)
        && (a == Settled(Fulfilled) ==> valid == ResultTree.IsValid(used.value.store.root))
    {
      var u;
      a, u := ValidateAsync(v, scope, None);
      used := u;
      valid := false;
      if a == Settled(Fulfilled) {
        valid := u.value.store.IsValid([]);
      }
    }

    // -------------------------------------------------------------------
    // The validate.js bridge

    /** The inner loop of `_buildConstraints`: a forwarding validator for each unknown name of `spec`. */
    method RegisterForwarders(spec: Spec)
      modifies registry
      ensures registry.counter == old(registry.counter)
      ensures registry.validators == AddForwarders(old(registry.validators), spec, env.checksValidate)
    {
      var names := spec.Keys;
      while names != {}
        invariant names <= spec.Keys
        invariant registry.counter == old(registry.counter)
        invariant forall n :: Forwarded(registry.validators, old(registry.validators), spec, names, n)
        decreases |names|
      {
        var name :| name in names;
        ghost var before := registry.validators;
        if name != "nested" && name !in registry.validators {
          registry.validators := registry.validators[name := Forwarding(name, env.checksValidate)];
        }
        forall n ensures Forwarded(registry.validators, old(registry.validators), spec, names - {name}, n) {
          assert Forwarded(before, old(registry.validators), spec, names, n);
        }
        names := names - {name};
      }
      ghost var want := AddForwarders(old(registry.validators), spec, env.checksValidate);
      forall n ensures (n in registry.validators <==> n in want) && (n in want ==> registry.validators[n] == want[n]) {
        assert Forwarded(registry.validators, old(registry.validators), spec, {}, n);
      }
    }

    /** Name `n` is registered as it is once every name of `spec` outside `todo` has been visited. */
    ghost predicate Forwarded(now: map<string, ValidatorFn>, before: map<string, ValidatorFn>, spec: Spec, todo: set<string>, n: string)
    {
      && (n in now <==> n in before || (n in spec && n != "nested" && n !in todo))
      && (n in now ==> now[n] == if n in before then before[n] else Forwarding(n, env.checksValidate))
    }

    /**
     * `_buildConstraints(target, nested)`: the constraint map and the nested
     * children, registering forwarding validators on the way.
     */
    method BuildConstraints(v: Value) returns (constraints: Option<ConstraintMap>, nested: seq<(string, Value)>)
      modifies registry
      ensures registry.counter == old(registry.counter)
      ensures (constraints, nested, registry.validators) == Engine.BuildConstraints(v, old(registry.validators), env.checksValidate)
    {
      var ds := DescriptorsOf(v);
      if ds == [] {
        return None, [];
      }
      var c: ConstraintMap := map[];
      nested := [];
      var i := 0;
      while i < |ds|
        invariant 0 <= i <= |ds| && registry.counter == old(registry.counter)
        invariant BuildFrom(v.obj, ds[i..], c, nested, registry.validators, env.checksValidate)
               == BuildFrom(v.obj, ds, map[], [], old(registry.validators), env.checksValidate)
      {
        var d := ds[i];
        c := c[d.key := d.validate];
        var child := Get(v.obj, d.key);
        if "nested" in d.validate && Truthy(child) {
          nested := Assign(nested, d.key, child);
        }
        RegisterForwarders(d.validate);
        assert ds[i..][1..] == ds[i + 1..];
        i := i + 1;
      }
      constraints := Some(c);
    }

    /** `_mapResults(results, errors)` on the node at `p`. */
    method MapResults(store: ValidationResult, p: Path, ds: seq<Detail>) returns (r: Result<(), Error>)
      requires store.Valid() && store.Has(p)
      modifies store
      ensures store.Valid()
      ensures (r, store.root) == Engine.MapResults(old(store.root), p, ds)
    {
      var i := 0;
      while i < |ds|
        invariant 0 <= i <= |ds| && store.Valid() && store.Has(p)
        invariant Engine.MapResults(store.root, p, ds[i..]) == Engine.MapResults(old(store.root), p, ds)
      {
        var d := ds[i];
        ghost var t := store.root;
        var child := store.AddKey(p, d.attribute);
        if child.None? {
          return Err(NotANode(d.attribute));
        }
        AtChild(store.root, p, d.attribute);
        var _ := store.AddError(child.value, d.validator, RecordOf(d));
        assert store.root == MapOne(t, p, d);
        assert ds[i..][1..] == ds[i + 1..];
        i := i + 1;
      }
      r := Ok(());
    }

    // -------------------------------------------------------------------
    // Synchronous validation

    /**
     * `validate(object, scope, results)` with the results at node `p` of
     * `store`: the handlers, then the `$validation` binding, then the
     * `validateThat*` members.
     */
    method ValidateAt(store: ValidationResult, p: Path, v: Value) returns (r: Result<(), Error>)
      requires store.Valid() && store.Has(p)
      modifies this, registry, store
      ensures store.Valid()
      ensures (r, Now(store)) == Engine.Validate(env, old(Now(store)), store, p, v)
      decreases v, 2
    {
      if IsNothing(v) {
        return Err(MissingObject);
      }
      r := HandleSync(store, p, v);
      if r.Err? {
        return;
      }
      if !IsObjectLike(v) {
        return Err(NotAnObject);
      }
      bound := bound[v := Handle(store, p)];
      if v.Obj? {
        var promises;
        r, promises := ValidateThat(store, p, v.obj, false, false);
      }
    }

    /** The bridge's `$validate` handler in synchronous mode, on `v` with results at `p`. */
    method HandleSync(store: ValidationResult, p: Path, v: Value) returns (r: Result<(), Error>)
      requires store.Valid() && store.Has(p)
      modifies this, registry, store
      ensures store.Valid()
      ensures (r, Now(store)) == Engine.HandleSync(env, old(Now(store)), store, p, v)
      decreases v, 1
    {
      ghost var before := registry.validators;
      var constraints, nested := BuildConstraints(v);
      if constraints.None? {
        return Ok(());
      }
      match env.evaluate(v.obj, constraints.value)
      case Err(m) =>
        r := Err(Thrown(m));
      case Ok(ds) =>
        NestedProps(v.obj, DescriptorsOf(v), map[], [], before, env.checksValidate);
        TargetsInside(v.obj, nested);
        r := ValidateNested(store, p, v.obj, Targets(nested));
        if r.Ok? {
          r := MapResults(store, p, ds);
        }
    }

    /** The synchronous loop over the nested targets of `o`, whose results are at `p`. */
    method ValidateNested(store: ValidationResult, p: Path, o: Object, targets: seq<(string, Value)>) returns (r: Result<(), Error>)
      requires store.Valid() && store.Has(p)
      requires forall e :: e in targets ==> Inside(e.1, o)
      modifies this, registry, store
      ensures store.Valid()
      ensures (r, Now(store)) == Engine.ValidateNested(env, old(Now(store)), store, p, o, targets, 0)
      decreases Obj(o), 0, 1
    {
      var i := 0;
      while i < |targets|
        invariant 0 <= i <= |targets| && store.Valid() && store.Has(p)
        invariant Engine.ValidateNested(env, Now(store), store, p, o, targets, i)
               == Engine.ValidateNested(env, old(Now(store)), store, p, o, targets, 0)
      {
        r := ValidateTarget(store, p, o, targets, i);
        if r.Err? {
          return;
        }
        i := i + 1;
      }
      r := Ok(());
    }

    /** Target `i` of the synchronous loop: `validate(child, scope, results.addKey(key))`. */
    method ValidateTarget(store: ValidationResult, p: Path, o: Object, targets: seq<(string, Value)>, i: nat)
      returns (r: Result<(), Error>)
      requires store.Valid() && store.Has(p) && i < |targets|
      requires forall e :: e in targets ==> Inside(e.1, o)
      modifies this, registry, store
      ensures store.Valid() && store.Has(p)
      ensures r.Err? ==> (r, Now(store)) == Engine.ValidateNested(env, old(Now(store)), store, p, o, targets, i)
      ensures r.Ok? ==>
        Engine.ValidateNested(env, Now(store), store, p, o, targets, i + 1)
        == Engine.ValidateNested(env, old(Now(store)), store, p, o, targets, i)
      decreases Obj(o), 0, 0
    {
      var (k, child) := targets[i];
      assert Inside(child, o);
      var node := store.AddKey(p, k);
      if node.None? {
        return Err(NotANode(k));
      }
      AtChild(store.root, p, k);
      r := ValidateAt(store, node.value, child);
      AtParent(store.root, p, k);
    }

    // -------------------------------------------------------------------
    // Asynchronous validation

    /**
     * `validateAsync(object, scope, results)` with the results at node `p`
     * of `store`: a missing object throws at once; otherwise the promise
     * settles once the handlers, the binding, the `validateThat*` members
     * and the promises they return have.
     */
    method ValidateAsyncAt(store: ValidationResult, p: Path, v: Value) returns (a: AsyncResult)
      requires store.Valid() && store.Has(p)
      modifies this, registry, store
      ensures store.Valid()
      ensures (a, Now(store)) == Engine.ValidateAsync(env, old(Now(store)), store, p, v)
      decreases v, 2
    {
      if IsNothing(v) {
        return Raised(MissingObject);
      }
      var o1 := HandleAsync(store, p, v);
      if o1.Rejected? {
        return Settled(o1);
      }
      if !IsObjectLike(v) {
        return Settled(Rejected(Failure(NotAnObject)));
      }
      bound := bound[v := Handle(store, p)];
      if !v.Obj? {
        return Settled(Fulfilled);
      }
      var r3, promises := ValidateThat(store, p, v.obj, true, true);
      if r3.Err? {
        return Settled(Rejected(Failure(r3.error)));
      }
      var outcomes := AwaitAll(store, p, promises);
      a := Settled(All(outcomes));
    }

    /** The bridge's `$validate` handler in asynchronous mode, on `v` with results at `p`. */
    method HandleAsync(store: ValidationResult, p: Path, v: Value) returns (o: Outcome)
      requires store.Valid() && store.Has(p)
      modifies this, registry, store
      ensures store.Valid()
      ensures (o, Now(store)) == Engine.HandleAsync(env, old(Now(store)), store, p, v)
      decreases v, 1
    {
      ghost var before := registry.validators;
      var constraints, nested := BuildConstraints(v);
      if constraints.None? {
        return Fulfilled;
      }
      NestedProps(v.obj, DescriptorsOf(v), map[], [], before, env.checksValidate);
      TargetsInside(v.obj, nested);
      var targets := Targets(nested);
      match env.evaluateAsync(v.obj, constraints.value)
      case Fulfilled =>
        var n := ValidateNestedAsync(store, p, v.obj, targets);
        o := Caught(store, p, v.obj, targets, Settle(n));
      case Rejected(reason) =>
        o := Caught(store, p, v.obj, targets, Rejected(reason));
    }

    /** The `.catch` of the asynchronous handler, given how the chain before it settled. */
    method Caught(store: ValidationResult, p: Path, o: Object, targets: seq<(string, Value)>, settled: Outcome)
      returns (r: Outcome)
      requires store.Valid() && store.Has(p)
      requires forall e :: e in targets ==> Inside(e.1, o)
      modifies this, registry, store
      ensures store.Valid()
      ensures (r, Now(store)) == Engine.Caught(env, old(Now(store)), store, p, o, targets, settled)
      decreases Obj(o), 0, 2
    {
      if settled.Fulfilled? || settled.reason.Failure? {
        return settled;
      }
      var n := ValidateNestedAsync(store, p, o, targets);
      if Settle(n).Rejected? {
        return Settle(n);
      }
      var r3 := MapResults(store, p, settled.reason.details);
      r := if r3.Err? then Rejected(Failure(r3.error)) else Fulfilled;
    }

    /** `_validateNestedAsync` over the targets of `o`, whose results are at `p`. */
    method ValidateNestedAsync(store: ValidationResult, p: Path, o: Object, targets: seq<(string, Value)>)
      returns (n: Result<seq<Outcome>, Error>)
      requires store.Valid() && store.Has(p)
      requires forall e :: e in targets ==> Inside(e.1, o)
      modifies this, registry, store
      ensures store.Valid()
      ensures (n, Now(store)) == Engine.ValidateNestedAsync(env, old(Now(store)), store, p, o, targets, 0, [])
      decreases Obj(o), 0, 1
    {
      var pending := [];
      var i := 0;
      while i < |targets|
        invariant 0 <= i <= |targets| && store.Valid() && store.Has(p)
        invariant Engine.ValidateNestedAsync(env, Now(store), store, p, o, targets, i, pending)
               == Engine.ValidateNestedAsync(env, old(Now(store)), store, p, o, targets, 0, [])
      {
        var started := ValidateTargetAsync(store, p, o, targets, i, pending);
        if started.Err? {
          return Err(started.error);
        }
        pending := pending + [started.value];
        i := i + 1;
      }
      n := Ok(pending);
    }

    /** Target `i` of `_validateNestedAsync`: `validateAsync(child, scope, results.addKey(key))`. */
    method ValidateTargetAsync(store: ValidationResult, p: Path, o: Object, targets: seq<(string, Value)>, i: nat,
                               ghost pending: seq<Outcome>)
      returns (started: Result<Outcome, Error>)
      requires store.Valid() && store.Has(p) && i < |targets|
      requires forall e :: e in targets ==> Inside(e.1, o)
      modifies this, registry, store
      ensures store.Valid() && store.Has(p)
      ensures started.Err? ==>
        (Err(started.error), Now(store)) == Engine.ValidateNestedAsync(env, old(Now(store)), store, p, o, targets, i, pending)
      ensures started.Ok? ==>
        Engine.ValidateNestedAsync(env, Now(store), store, p, o, targets, i + 1, pending + [started.value])
        == Engine.ValidateNestedAsync(env, old(Now(store)), store, p, o, targets, i, pending)
      decreases Obj(o), 0, 0
    {
      var (k, child) := targets[i];
      assert Inside(child, o);
      var node := store.AddKey(p, k);
      if node.None? {
        return Err(NotANode(k));
      }
      AtChild(store.root, p, k);
      var a := ValidateAsyncAt(store, node.value, child);
      AtParent(store.root, p, k);
      started := match a
        case Raised(e) => Err(e)
        case Settled(o1) => Ok(o1);
    }

    // -------------------------------------------------------------------
    // `_validateThat` and the awaited promises

    /**
     * `_validateThat(validation, asyncResults, composer)` on object `o` with
     * results at `p`: call each enumerable member whose name starts with
     * `validateThat`; when `collect` holds, keep the promises they return.
     */
    method ValidateThat(store: ValidationResult, p: Path, o: Object, isAsync: bool, collect: bool)
      returns (r: Result<(), Error>, promises: seq<Value>)
      requires store.Valid() && store.Has(p)
      modifies store
      ensures store.Valid()
      ensures (r, promises, store.root) == Engine.Sweep(env, old(store.root), p, o, isAsync, collect, 0, [])
    {
      promises := [];
      var i := 0;
      while i < |o.enumKeys|
        invariant 0 <= i <= |o.enumKeys| && store.Valid() && store.Has(p)
        invariant Engine.Sweep(env, store.root, p, o, isAsync, collect, i, promises)
               == Engine.Sweep(env, old(store.root), p, o, isAsync, collect, 0, [])
      {
        var key := o.enumKeys[i];
        if IsValidateThat(key) {
          var r1, mine := CallMember(store, p, o, isAsync, collect, key);
          if r1.Err? {
            return r1, promises;
          }
          promises := promises + mine;
        }
        i := i + 1;
      }
      r := Ok(());
    }

    /** `validator.call(object, validation, composer)` for member `key` of `o`, with results at `p`. */
    method CallMember(store: ValidationResult, p: Path, o: Object, isAsync: bool, collect: bool, key: string)
      returns (r: Result<(), Error>, mine: seq<Value>)
      requires store.Valid() && store.Has(p)
      modifies store
      ensures store.Valid()
      ensures (r, mine, store.root) == Engine.CallMember(env, old(store.root), p, o, isAsync, collect, key)
    {
      if !IsFunction(Get(o, key)) {
        return Err(NotAFunction(key)), [];
      }
      match env.member(o, key, isAsync)
      case Threw(m) =>
        return Err(Thrown(m)), [];
      case Returned(value, reported) =>
        r := MapResults(store, p, reported);
        mine := if r.Ok? && collect && IsPromise(value) then [value] else [];
    }

    /** `Promise.all(asyncResults)`: each collected promise settles in turn and records what it reports. */
    method AwaitAll(store: ValidationResult, p: Path, promises: seq<Value>) returns (outcomes: seq<Outcome>)
      requires store.Valid() && store.Has(p)
      modifies store
      ensures store.Valid()
      ensures (outcomes, store.root) == Engine.AwaitAll(env, old(store.root), p, promises, 0, [])
    {
      outcomes := [];
      var i := 0;
      while i < |promises|
        invariant 0 <= i <= |promises| && store.Valid() && store.Has(p)
        invariant Engine.AwaitAll(env, store.root, p, promises, i, outcomes)
               == Engine.AwaitAll(env, old(store.root), p, promises, 0, [])
      {
        var s := env.settle(promises[i]);
        var r1 := MapResults(store, p, s.reported);
        var first := if r1.Err? then Rejected(Failure(r1.error)) else s.outcome;
        outcomes := outcomes + [first];
        i := i + 1;
      }
    }
  }
}
