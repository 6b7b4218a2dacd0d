/**
 * What a validation does, as functions from the state before to the
 * outcome and the state after:
 *
 *  - `ValidationCallbackHandler.validate` / `validateAsync`
 *    (src/validate.js:58-84) with `_bindValidationResults` and the
 *    `_validateThat` sweep (src/validate.js:87-107);
 *  - the `Validation` handler (dist/amd/miruken-validate.js:158-168), whose
 *    only `$validate` handler here is the validate.js bridge;
 *  - the bridge `ValidateJsCallbackHandler.$validate`, `_buildConstraints`,
 *    `_mapResults` and `_validateNestedAsync` (src/validate-js.js:135-232).
 *
 * validate.js itself, the object's own `validateThat*` members and the
 * promises they return are the parameters in `Env`. Asynchronous work is
 * modelled as running to completion in program order (see README).
 */
module Engine {
  import opened Wrappers
  import opened Js
  import opened ResultTree
  import opened Results
  import opened Registry

  /** One failed check in validate.js's "detailed" format. */
  datatype Detail = Detail(attribute: string, validator: string, error: string, value: Value)

  /** An exception: a TypeError, or an `Error` thrown by code outside the core. */
  datatype Error = TypeError(message: string) | Thrown(message: string)

  /** Why a promise was rejected: an `Error` object, or a list of failed checks. */
  datatype Reason = Failure(error: Error) | Details(details: seq<Detail>)

  /** How a promise settled. */
  datatype Outcome = Fulfilled | Rejected(reason: Reason)

  /** What calling a `validateThat*` member did: returned a value after reporting failed checks, or threw. */
  datatype Call = Returned(value: Value, reported: seq<Detail>) | Threw(message: string)

  /** How a promise a member returned settled, and the failed checks it reported on the way. */
  datatype Settlement = Settlement(outcome: Outcome, reported: seq<Detail>)

  /** The constraint map handed to validate.js: property name to its spec. */
  type ConstraintMap = map<string, Spec>

  /**
   * Everything outside the core. `evaluate` is `validatejs(target,
   * constraints, DETAILED)` (the failed checks, none when valid, or the
   * message of what it threw); `evaluateAsync` is how the promise of
   * `validatejs.async` settles; `member(o, key, isAsync)` is what calling
   * member `key` of `o` does; `settle` is how a returned promise settles.
   * `checksValidate` selects the forwarding validator of the System bundle,
   * which also checks for a `validate` method.
   */
  datatype Env = Env(
    evaluate: (Object, ConstraintMap) -> Result<seq<Detail>, string>,
    evaluateAsync: (Object, ConstraintMap) -> Outcome,
    member: (Object, string, bool) -> Call,
    settle: Value -> Settlement,
    checksValidate: bool)

  /**
   * What validation changes: the validator table, the result tree the
   * results live in, and which object's `$validation` refers to which node.
   */
  datatype State = State(validators: map<string, ValidatorFn>, tree: Tree, bound: map<Value, Handle>)

  /** The outcome of `validateAsync`: it threw before returning a promise, or its promise settled. */
  datatype AsyncResult = Raised(error: Error) | Settled(outcome: Outcome)

  const MissingObject: Error := TypeError("Missing object to validate.")

  /** `Object.defineProperty` on a primitive value. */
  const NotAnObject: Error := TypeError("Object.defineProperty called on non-object")

  /** `addKey` of a reserved key yields a member of the node, not a node, and using it as one throws. */
  function NotANode(key: string): Error {
    TypeError("'" + key + "' is not a result node")
  }

  /** Calling a `validateThat*` member that is not a function. */
  function NotAFunction(key: string): Error {
    TypeError("'" + key + "' is not a function")
  }

  // ---------------------------------------------------------------------
  // `_buildConstraints`

  /** The declarations the class of `v` carries. */
  function DescriptorsOf(v: Value): seq<Descriptor> {
    if v.Obj? && v.obj.meta.Some? then v.obj.meta.value else []
  }

  /** `nested[key] = child` on an object used as an ordered map: replace in place, or append. */
  function Assign(nested: seq<(string, Value)>, key: string, child: Value): (r: seq<(string, Value)>)
    ensures forall e :: e in r ==> e in nested || e == (key, child)
    ensures (key, child) in r
    ensures forall e :: e in nested && e.0 != key ==> e in r
    decreases |nested|
  {
    if nested == [] then [(key, child)]
    else if nested[0].0 == key then [(key, child)] + nested[1..]
    else [nested[0]] + Assign(nested[1..], key, child)
  }

  /** The forwarding validators a spec needs: one for each name that is neither `nested` nor in the table. */
  function AddForwarders(validators: map<string, ValidatorFn>, spec: Spec, checksValidate: bool): (r: map<string, ValidatorFn>)
    ensures forall n :: n in validators ==> n in r && r[n] == validators[n]
    ensures forall n :: n in r && n !in validators ==> n in spec && n != "nested" && r[n] == Forwarding(n, checksValidate)
    ensures forall n :: n in spec && n != "nested" ==> n in r
  {
    validators + map n | n in spec && n != "nested" && n !in validators :: Forwarding(n, checksValidate)
  }

  /**
   * `_buildConstraints` over the declarations `ds` of object `o`, from the
   * constraints, nested children and table built so far.
   */
  function BuildFrom(o: Object, ds: seq<Descriptor>, constraints: ConstraintMap, nested: seq<(string, Value)>,
                     validators: map<string, ValidatorFn>, checksValidate: bool)
    : (ConstraintMap, seq<(string, Value)>, map<string, ValidatorFn>)
    decreases |ds|
  {
    if ds == [] then (constraints, nested, validators)
    else
      var d := ds[0];
      var child := Get(o, d.key);
      var nested' := if "nested" in d.validate && Truthy(child) then Assign(nested, d.key, child) else nested;
      BuildFrom(o, ds[1..], constraints[d.key := d.validate], nested', AddForwarders(validators, d.validate, checksValidate), checksValidate)
  }

  /**
   * `_buildConstraints(target, nested)`: the constraint map (absent when the
   * target declares nothing), the nested children to validate, and the
   * validator table with forwarders for the unknown constraint names.
   */
  function BuildConstraints(v: Value, validators: map<string, ValidatorFn>, checksValidate: bool)
    : (Option<ConstraintMap>, seq<(string, Value)>, map<string, ValidatorFn>)
  {
    var ds := DescriptorsOf(v);
    if ds == [] then (None, [], validators)
    else
      var (c, n, t) := BuildFrom(v.obj, ds, map[], [], validators, checksValidate);
      (Some(c), n, t)
  }

  // ---------------------------------------------------------------------
  // Nested children

  /** `v` is a property value of `o`, or an element of an array that is. */
  ghost predicate Inside(v: Value, o: Object) {
    exists k :: k in o.props && (o.props[k] == v || (o.props[k].Arr? && v in o.props[k].elems))
  }

  /**
   * The validations the nested children call for, in order: each element
   * `i` of an array child at `k` under key `k.i`, any other child under `k`.
   */
  function Targets(nested: seq<(string, Value)>): (r: seq<(string, Value)>)
    decreases |nested|
  {
    if nested == [] then []
    else
      var (k, child) := nested[0];
      (if child.Arr? then Elements(k, child.elems, 0) else [(k, child)]) + Targets(nested[1..])
  }

  /** The targets of array `elems` at `k` from position `i` on. */
  function Elements(k: string, elems: seq<Value>, i: nat): (r: seq<(string, Value)>)
    ensures |r| == if i <= |elems| then |elems| - i else 0
    ensures forall j :: 0 <= j < |r| ==> r[j] == (k + "." + NatToString(i + j), elems[i + j])
    decreases |elems| - i
  {
    if i >= |elems| then [] else [(k + "." + NatToString(i), elems[i])] + Elements(k, elems, i + 1)
  }

  // ---------------------------------------------------------------------
  // `_mapResults`

  /** The record `addError` receives for a failed check. */
  function RecordOf(d: Detail): ErrorRecord {
    ErrorRecord(d.error, d.value, "")
  }

  /**
   * `_mapResults(results, errors)` on the node at `p`: for each failed check,
   * `addKey(attribute).addError(validator, {message, value})`. A reserved
   * attribute throws, after the checks before it were recorded.
   */
  function MapResults(t: Tree, p: Path, ds: seq<Detail>): (r: (Result<(), Error>, Tree))
    requires At(t, p).Some?
    ensures At(r.1, p).Some?
    decreases |ds|
  {
    if ds == [] then (Ok(()), t)
    else if IsReserved(ds[0].attribute) then (Err(NotANode(ds[0].attribute)), t)
    else MapResults(MapOne(t, p, ds[0]), p, ds[1..])
  }

  /** One failed check: `results.addKey(attribute).addError(validator, record)` on the node at `p`. */
  function MapOne(t: Tree, p: Path, d: Detail): (r: Tree)
    requires At(t, p).Some? && !IsReserved(d.attribute)
    ensures At(r, p).Some?
  {
    var t1 := Put(t, p, ResultTree.AddKey(NodeAt(t, p), d.attribute));
    AtChild(t1, p, d.attribute);
    var u := ResultTree.AddError(NodeAt(t1, p + [d.attribute]), d.validator, RecordOf(d));
    PutKeepsPrefix(t1, p + [d.attribute], p, u);
    Put(t1, p + [d.attribute], u)
  }

  // ---------------------------------------------------------------------
  // The `_validateThat` sweep

  /**
   * The sweep of `_validateThat` over the enumerable keys of `o` from
   * position `i` on, with results at `p`: each member whose name starts
   * with `validateThat` is called and what it reports recorded; when
   * `collect` holds, the promises it returns are added to `promises`. The
   * first call that fails ends the sweep.
   */
  function Sweep(env: Env, t: Tree, p: Path, o: Object, isAsync: bool, collect: bool, i: nat, promises: seq<Value>)
    : (r: (Result<(), Error>, seq<Value>, Tree))
    requires At(t, p).Some?
    ensures At(r.2, p).Some?
    decreases |o.enumKeys| - i
  {
    if i >= |o.enumKeys| then (Ok(()), promises, t)
    else if !IsValidateThat(o.enumKeys[i]) then Sweep(env, t, p, o, isAsync, collect, i + 1, promises)
    else
      var (r1, mine, t1) := CallMember(env, t, p, o, isAsync, collect, o.enumKeys[i]);
      if r1.Err? then (r1, promises, t1)
      else Sweep(env, t1, p, o, isAsync, collect, i + 1, promises + mine)
  }

  /**
   * `validator.call(object, validation, composer)` for member `key`: what
   * it reports is recorded at `p`; the promise it returns is kept when
   * `collect` holds. Calling a value that is not a function throws.
   */
  function CallMember(env: Env, t: Tree, p: Path, o: Object, isAsync: bool, collect: bool, key: string)
    : (r: (Result<(), Error>, seq<Value>, Tree))
    requires At(t, p).Some?
    ensures At(r.2, p).Some?
  {
    if !IsFunction(Get(o, key)) then (Err(NotAFunction(key)), [], t)
    else match env.member(o, key, isAsync)
      case Threw(m) => (Err(Thrown(m)), [], t)
      case Returned(value, reported) =>
        var (r1, t1) := MapResults(t, p, reported);
        (r1, if r1.Ok? && collect && IsPromise(value) then [value] else [], t1)
  }

  /** `Promise.all` over settled promises: rejected with the first rejection, fulfilled when none. */
  function All(outcomes: seq<Outcome>): (r: Outcome)
    ensures r.Fulfilled? <==> forall o :: o in outcomes ==> o.Fulfilled?
    ensures r.Rejected? ==> r in outcomes
    decreases |outcomes|
  {
    if outcomes == [] then Fulfilled
    else if outcomes[0].Rejected? then outcomes[0]
    else All(outcomes[1..])
  }

  /**
   * The collected promises settling in turn, each recording the failed
   * checks it reports (a reserved attribute rejects that promise); returns
   * how each settled.
   */
  function AwaitAll(env: Env, t: Tree, p: Path, promises: seq<Value>, i: nat, outcomes: seq<Outcome>)
    : (r: (seq<Outcome>, Tree))
    requires At(t, p).Some? && i <= |promises|
    ensures At(r.1, p).Some? && |r.0| == |outcomes| + |promises| - i
    decreases |promises| - i
  {
    if i == |promises| then (outcomes, t)
    else
      var s := env.settle(promises[i]);
      var (r1, t1) := MapResults(t, p, s.reported);
      var first := if r1.Err? then Rejected(Failure(r1.error)) else s.outcome;
      AwaitAll(env, t1, p, promises, i + 1, outcomes + [first])
  }

  // ---------------------------------------------------------------------
  // Synchronous validation

  /**
   * `validate(object, scope, results)` with the results at node `p` of the
   * tree: reject a missing object; run the handlers; bind the results to
   * the object; sweep its `validateThat*` members.
   */
  function Validate(env: Env, st: State, store: ValidationResult, p: Path, v: Value): (r: (Result<(), Error>, State))
    requires At(st.tree, p).Some?
    ensures At(r.1.tree, p).Some?
    decreases v, 2
  {
    if IsNothing(v) then (Err(MissingObject), st)
    else
      var (r1, st1) := HandleSync(env, st, store, p, v);
      if r1.Err? then (r1, st1)
      else if !IsObjectLike(v) then (Err(NotAnObject), st1)
      else
        var st2 := st1.(bound := st1.bound[v := Handle(store, p)]);
        if !v.Obj? then (Ok(()), st2)
        else
          var (r3, _, t3) := Sweep(env, st2.tree, p, v.obj, false, false, 0, []);
          (r3, st2.(tree := t3))
  }

  /**
   * The bridge's `$validate` handler in synchronous mode: build the
   * constraints; evaluate them; validate every nested child; then map the
   * failed checks onto the results.
   */
  function HandleSync(env: Env, st: State, store: ValidationResult, p: Path, v: Value): (r: (Result<(), Error>, State))
    requires At(st.tree, p).Some?
    ensures At(r.1.tree, p).Some?
    decreases v, 1
  {
    var (constraints, nested, validators) := BuildConstraints(v, st.validators, env.checksValidate);
    var st1 := st.(validators := validators);
    if constraints.None? then (Ok(()), st1)
    else
      match env.evaluate(v.obj, constraints.value)
      case Err(m) => (Err(Thrown(m)), st1)
      case Ok(ds) =>
        NestedProps(v.obj, DescriptorsOf(v), map[], [], st.validators, env.checksValidate);
        TargetsInside(v.obj, nested);
        var (r2, st2) := ValidateNested(env, st1, store, p, v.obj, Targets(nested), 0);
        if r2.Err? then (r2, st2)
        else
          var (r3, t3) := MapResults(st2.tree, p, ds);
          (r3, st2.(tree := t3))
  }

  /**
   * The synchronous loop over the nested targets from position `i` on:
   * `validate(child, scope, results.addKey(key))` for each.
   */
  function ValidateNested(env: Env, st: State, store: ValidationResult, p: Path, o: Object, targets: seq<(string, Value)>, i: nat)
    : (r: (Result<(), Error>, State))
    requires At(st.tree, p).Some?
    requires forall e :: e in targets ==> Inside(e.1, o)
    ensures At(r.1.tree, p).Some?
    decreases Obj(o), 0, |targets| - i
  {
    if i >= |targets| then (Ok(()), st)
    else
      var (k, child) := targets[i];
      assert Inside(child, o);
      if IsReserved(k) then (Err(NotANode(k)), st)
      else
        var t1 := Put(st.tree, p, ResultTree.AddKey(NodeAt(st.tree, p), k));
        AtChild(t1, p, k);
        var (r1, st1) := Validate(env, st.(tree := t1), store, p + [k], child);
        AtParent(st1.tree, p, k);
        if r1.Err? then (r1, st1)
        else ValidateNested(env, st1, store, p, o, targets, i + 1)
  }

  // ---------------------------------------------------------------------
  // Asynchronous validation

  /**
   * `validateAsync(object, scope, results)`: reject a missing object at once;
   * otherwise, once the handlers' promise fulfils, bind the results, sweep
   * the members collecting the promises they return, and await them all.
   */
  function ValidateAsync(env: Env, st: State, store: ValidationResult, p: Path, v: Value): (r: (AsyncResult, State))
    requires At(st.tree, p).Some?
    ensures At(r.1.tree, p).Some?
    decreases v, 2
  {
    if IsNothing(v) then (Raised(MissingObject), st)
    else
      var (o1, st1) := HandleAsync(env, st, store, p, v);
      if o1.Rejected? then (Settled(o1), st1)
      else if !IsObjectLike(v) then (Settled(Rejected(Failure(NotAnObject))), st1)
      else
        var st2 := st1.(bound := st1.bound[v := Handle(store, p)]);
        if !v.Obj? then (Settled(Fulfilled), st2)
        else
          var (r3, promises, t3) := Sweep(env, st2.tree, p, v.obj, true, true, 0, []);
          if r3.Err? then (Settled(Rejected(Failure(r3.error))), st2.(tree := t3))
          else
            var (o4, t4) := AwaitAll(env, t3, p, promises, 0, []);
            (Settled(All(o4)), st2.(tree := t4))
  }

  /**
   * The bridge's `$validate` handler in asynchronous mode. When evaluation
   * fulfils, the nested children are validated. A rejection that is an
   * `Error` (from evaluation or from the nested validations) is passed on;
   * any other rejection is a list of failed checks: the nested children are
   * validated and then the checks are mapped onto the results.
   */
  function HandleAsync(env: Env, st: State, store: ValidationResult, p: Path, v: Value): (r: (Outcome, State))
    requires At(st.tree, p).Some?
    ensures At(r.1.tree, p).Some?
    decreases v, 1
  {
    var (constraints, nested, validators) := BuildConstraints(v, st.validators, env.checksValidate);
    var st1 := st.(validators := validators);
    if constraints.None? then (Fulfilled, st1)
    else
      NestedProps(v.obj, DescriptorsOf(v), map[], [], st.validators, env.checksValidate);
      TargetsInside(v.obj, nested);
      var targets := Targets(nested);
      match env.evaluateAsync(v.obj, constraints.value)
      case Fulfilled =>
        var (n, st2) := ValidateNestedAsync(env, st1, store, p, v.obj, targets, 0, []);
        Caught(env, st2, store, p, v.obj, targets, Settle(n))
      case Rejected(reason) => Caught(env, st1, store, p, v.obj, targets, Rejected(reason))
  }

  /**
   * The `.catch` of the handler's chain, given how the chain before it
   * settled: an `Error` is passed on; a list of failed checks leads to the
   * nested validations and then to the checks mapped onto the results.
   */
  function Caught(env: Env, st: State, store: ValidationResult, p: Path, o: Object, targets: seq<(string, Value)>, settled: Outcome)
    : (r: (Outcome, State))
    requires At(st.tree, p).Some?
    requires forall e :: e in targets ==> Inside(e.1, o)
    ensures At(r.1.tree, p).Some?
    decreases Obj(o), 0, |targets| + 1
  {
    if settled.Fulfilled? || settled.reason.Failure? then (settled, st)
    else
      var (n, st2) := ValidateNestedAsync(env, st, store, p, o, targets, 0, []);
      if Settle(n).Rejected? then (Settle(n), st2)
      else
        var (r3, t3) := MapResults(st2.tree, p, settled.reason.details);
        (if r3.Err? then Rejected(Failure(r3.error)) else Fulfilled, st2.(tree := t3))
  }

  /** The promise `_validateNestedAsync` leads to: what it threw, or `Promise.all` of the pending validations. */
  function Settle(n: Result<seq<Outcome>, Error>): Outcome {
    if n.Err? then Rejected(Failure(n.error)) else All(n.value)
  }

  /**
   * `_validateNestedAsync` from target `i` on, with the outcomes of the
   * validations started so far in `pending`: one `validateAsync` per
   * target. A call that throws ends the loop, and the function throws that
   * error instead of returning the pending list.
   */
  function ValidateNestedAsync(env: Env, st: State, store: ValidationResult, p: Path, o: Object,
                               targets: seq<(string, Value)>, i: nat, pending: seq<Outcome>)
    : (r: (Result<seq<Outcome>, Error>, State))
    requires At(st.tree, p).Some?
    requires forall e :: e in targets ==> Inside(e.1, o)
    ensures At(r.1.tree, p).Some?
    ensures r.0.Ok? && i <= |targets| ==> |r.0.value| == |pending| + |targets| - i && r.0.value[..|pending|] == pending
    decreases Obj(o), 0, |targets| - i
  {
    if i >= |targets| then (Ok(pending), st)
    else
      var (k, child) := targets[i];
      assert Inside(child, o);
      if IsReserved(k) then (Err(NotANode(k)), st)
      else
        var t1 := Put(st.tree, p, ResultTree.AddKey(NodeAt(st.tree, p), k));
        AtChild(t1, p, k);
        var (a, st1) := ValidateAsync(env, st.(tree := t1), store, p + [k], child);
        AtParent(st1.tree, p, k);
        match a
        case Raised(e) => (Err(e), st1)
        case Settled(o1) => ValidateNestedAsync(env, st1, store, p, o, targets, i + 1, pending + [o1])
  }

  // ---------------------------------------------------------------------
  // Helper facts the definitions rely on

  /** The children `_buildConstraints` collects are property values of the target. */
  lemma {:induction false} NestedProps(o: Object, ds: seq<Descriptor>, constraints: ConstraintMap, nested: seq<(string, Value)>,
                                       validators: map<string, ValidatorFn>, checksValidate: bool)
    requires forall e :: e in nested ==> e.0 in o.props && e.1 == o.props[e.0]
    ensures var n := BuildFrom(o, ds, constraints, nested, validators, checksValidate).1;
      forall e :: e in n ==> e.0 in o.props && e.1 == o.props[e.0]
    decreases |ds|
  {
    if ds != [] {
      var d := ds[0];
      var child := Get(o, d.key);
      var nested' := if "nested" in d.validate && Truthy(child) then Assign(nested, d.key, child) else nested;
      NestedProps(o, ds[1..], constraints[d.key := d.validate], nested', AddForwarders(validators, d.validate, checksValidate), checksValidate);
    }
  }

  lemma {:induction false} TargetsInside(o: Object, nested: seq<(string, Value)>)
    requires forall e :: e in nested ==> e.0 in o.props && e.1 == o.props[e.0]
    ensures forall e :: e in Targets(nested) ==> Inside(e.1, o)
    decreases |nested|
  {
    if nested != [] {
      var (k, child) := nested[0];
      assert nested[0] in nested;
      TargetsInside(o, nested[1..]);
      var head := if child.Arr? then Elements(k, child.elems, 0) else [(k, child)];
      forall e | e in head ensures Inside(e.1, o) {
        if child.Arr? {
          var j :| 0 <= j < |head| && head[j] == e;
          assert e.1 == child.elems[j] && child.elems[j] in o.props[k].elems;
        }
      }
      assert Targets(nested) == head + Targets(nested[1..]);
    }
  }

  /** The parent of a node that exists exists. */
  lemma {:induction false} AtParent(t: Tree, p: Path, k: string)
    requires At(t, p + [k]).Some?
    ensures At(t, p).Some?
    decreases |p|
  {
    if p == [] {
    } else {
      assert (p + [k])[0] == p[0] && (p + [k])[1..] == p[1..] + [k];
      AtParent(t.kids[p[0]], p[1..], k);
    }
  }

  /** Replacing a node keeps every node on the way to it. */
  lemma {:induction false} PutKeepsPrefix(t: Tree, p: Path, q: Path, u: Tree)
    requires At(t, p).Some? && q <= p
    ensures At(Put(t, p, u), q).Some?
    decreases |p|
  {
    if q != [] {
      PutKeepsPrefix(t.kids[p[0]], p[1..], q[1..], u);
    }
  }
}
