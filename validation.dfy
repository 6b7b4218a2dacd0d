/**
 * The `Validation` request (dist/amd/miruken-validate.js:124-156): the
 * object to validate, the scope, whether the validation is asynchronous,
 * the result node errors go to, and the promises still pending.
 */
module Validations {
  import opened Wrappers
  import opened Js
  import opened Results
  import opened ResultTree

  /** `addAsyncResult(v)` on the pending list: only a promise is kept, and the list is created by the first one. */
  function Collect(pending: Option<seq<Value>>, v: Value): (r: Option<seq<Value>>)
    ensures !IsPromise(v) ==> r == pending
    ensures IsPromise(v) ==> r.Some? && r.value == pending.GetOr([]) + [v]
  {
    if IsPromise(v) then Some(pending.GetOr([]) + [v]) else pending
  }

  /** The pending list after offering every value of `vs` in turn, starting from none. */
  function CollectAll(vs: seq<Value>): Option<seq<Value>>
    decreases |vs|
  {
    if vs == [] then None else Collect(CollectAll(vs[..|vs| - 1]), vs[|vs| - 1])
  }

  /** The promises among `vs`, in order. */
  function Promises(vs: seq<Value>): (r: seq<Value>)
    ensures forall v :: v in r ==> IsPromise(v) && v in vs
    decreases |vs|
  {
    if vs == [] then []
    else Promises(vs[..|vs| - 1]) + (if IsPromise(vs[|vs| - 1]) then [vs[|vs| - 1]] else [])
  }

  /**
   * The pending list stays absent until the first promise is offered; after
   * that it holds exactly the promises offered, in order.
   */
  lemma {:induction false} CollectAllKeepsPromises(vs: seq<Value>)
    ensures CollectAll(vs).None? <==> Promises(vs) == []
    ensures CollectAll(vs).Some? ==> CollectAll(vs).value == Promises(vs)
    decreases |vs|
  {
    if vs != [] {
      CollectAllKeepsPromises(vs[..|vs| - 1]);
    }
  }

  class Validation {
    /** `object`: the value being validated. */
    const target: Value
    /** `!!async`. */
    const isAsync: bool
    /** The validation scope, passed through unchanged. */
    const scope: Value
    /** The node errors are reported to. */
    const results: Handle
    /** `asyncResults`: the promises offered so far, absent until the first one. */
    var asyncResults: Option<seq<Value>>

    /** The pending list holds only promises and is never an empty list. */
    ghost predicate Valid()
      reads this
    {
      asyncResults.Some? ==> asyncResults.value != [] && forall v :: v in asyncResults.value ==> IsPromise(v)
    }

    /** `new Validation(object, async, scope, results)` with `target` for `object`: a missing `results` is a fresh, empty result tree. */
    constructor (target: Value, async: Value, scope: Value, results: Option<Handle>)
      ensures Valid() && asyncResults == None
      ensures this.target == target && this.scope == scope && isAsync == Truthy(async)
      ensures results.Some? ==> this.results == results.value
      ensures results.None? ==> fresh(this.results.store) && this.results.store.root == Empty && this.results.path == []
    {
      this.target := target;
      this.isAsync := Truthy(async);
      this.scope := scope;
      if results.Some? {
        this.results := results.value;
      } else {
        var root := new ValidationResult();
        this.results := Handle(root, []);
      }
      asyncResults := None;
    }

    /** `addAsyncResult(result)`: keep `result` if it is a promise, ignore it otherwise. */
    method AddAsyncResult(result: Value)
      requires Valid()
      modifies this
      ensures Valid()
      ensures asyncResults == Collect(old(asyncResults), result)
    {
      if IsPromise(result) {
        var pending := if asyncResults.Some? then asyncResults.value else [];
        asyncResults := Some(pending + [result]);
      }
    }
  }
}
