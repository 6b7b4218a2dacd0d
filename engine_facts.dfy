/**
 * Properties of a validation run: what `_mapResults` records, which nested
 * validations `_validateNestedAsync` and the synchronous loop issue, what
 * `_buildConstraints` builds and registers, and what `validate` and
 * `validateAsync` promise about their outcome and the state they leave.
 */
module EngineFacts {
  import opened Wrappers
  import opened Js
  import opened ResultTree
  import opened Results
  import opened Registry
  import opened Engine
  import Constraints

  // ---------------------------------------------------------------------
  // `_mapResults`

  /** The records of the checks in `ds` that validator `n` failed on attribute `a`, in order. */
  function Records(ds: seq<Detail>, a: string, n: string): seq<ErrorRecord>
    decreases |ds|
  {
    if ds == [] then []
    else (if ds[0].attribute == a && ds[0].validator == n then [RecordOf(ds[0])] else []) + Records(ds[1..], a, n)
  }

  /** The errors named `n` at path `q`: none where there is no node or no list. */
  function ErrsAt(t: Tree, q: Path, n: string): seq<ErrorRecord> {
    match At(t, q)
    case Some(u) => if n in u.errs then u.errs[n] else []
    case None => []
  }

  /** Neither path leads through the other. */
  predicate Apart(p: Path, q: Path) {
    !(p <= q) && !(q <= p)
  }

  /** Every node apart from `p` is the same in `u` as in `t`. */
  ghost predicate SameApart(t: Tree, u: Tree, p: Path) {
    forall q :: Apart(p, q) ==> At(u, q) == At(t, q)
  }

  lemma ApartExtend(p: Path, k: string, q: Path)
    requires Apart(p, q)
    ensures Apart(p + [k], q)
  {
  }

  /** One step of `_mapResults`: the one record lands at the end of its list, and no other list changes. */
  lemma MapStep(t: Tree, p: Path, d: Detail, a: string, n: string)
    requires At(t, p).Some? && !IsReserved(d.attribute)
    ensures ErrsAt(MapOne(t, p, d), p + [a], n) == ErrsAt(t, p + [a], n) + (if d.attribute == a && d.validator == n then [RecordOf(d)] else [])
  {
    var t1 := Put(t, p, ResultTree.AddKey(NodeAt(t, p), d.attribute));
    AtChild(t1, p, d.attribute);
    AtChild(t1, p, a);
    AtChild(t, p, a);
    assert ErrsAt(t1, p + [a], n) == ErrsAt(t, p + [a], n);
    var q := p + [d.attribute];
    var u := ResultTree.AddError(NodeAt(t1, q), d.validator, RecordOf(d));
    assert MapOne(t, p, d) == Put(t1, q, u);
    if d.attribute != a {
      assert (p + [a])[|p|] == a && q[|p|] == d.attribute;
      PutElsewhere(t1, q, u, p + [a]);
    }
  }

  /** One step of `_mapResults` touches no node apart from `p`. */
  lemma MapStepApart(t: Tree, p: Path, d: Detail)
    requires At(t, p).Some? && !IsReserved(d.attribute)
    ensures SameApart(t, MapOne(t, p, d), p)
  {
    var node := NodeAt(t, p);
    var t1 := Put(t, p, ResultTree.AddKey(node, d.attribute));
    AtChild(t1, p, d.attribute);
    var q := p + [d.attribute];
    var u := ResultTree.AddError(NodeAt(t1, q), d.validator, RecordOf(d));
    assert MapOne(t, p, d) == Put(t1, q, u);
    forall r | Apart(p, r) ensures At(Put(t1, q, u), r) == At(t, r) {
      PutElsewhere(t, p, ResultTree.AddKey(node, d.attribute), r);
      ApartExtend(p, d.attribute, r);
      PutElsewhere(t1, q, u, r);
    }
  }

  /** `_mapResults` throws exactly when a failed check names a reserved attribute. */
  lemma {:induction false} MapResultsOk(t: Tree, p: Path, ds: seq<Detail>)
    requires At(t, p).Some?
    ensures MapResults(t, p, ds).0.Ok? <==> forall d :: d in ds ==> !IsReserved(d.attribute)
    decreases |ds|
  {
    if ds != [] {
      var d := ds[0];
      assert d in ds;
      if !IsReserved(d.attribute) {
        MapResultsOk(MapOne(t, p, d), p, ds[1..]);
        assert forall e :: e in ds <==> e == d || e in ds[1..];
      }
    }
  }

  /** `_mapResults` on the node at `p` touches no node apart from `p`. */
  lemma {:induction false} MapResultsApart(t: Tree, p: Path, ds: seq<Detail>)
    requires At(t, p).Some?
    ensures SameApart(t, MapResults(t, p, ds).1, p)
    decreases |ds|
  {
    if ds != [] && !IsReserved(ds[0].attribute) {
      MapStepApart(t, p, ds[0]);
      MapResultsApart(MapOne(t, p, ds[0]), p, ds[1..]);
    }
  }

  /**
   * When `_mapResults` succeeds, each list at `p.a` gains exactly the
   * records of the checks on `a` by that validator, in order, after those
   * it had.
   */
  lemma {:induction false} MapResultsAppends(t: Tree, p: Path, ds: seq<Detail>, a: string, n: string)
    requires At(t, p).Some?
    requires MapResults(t, p, ds).0.Ok?
    ensures ErrsAt(MapResults(t, p, ds).1, p + [a], n) == ErrsAt(t, p + [a], n) + Records(ds, a, n)
    decreases |ds|
  {
    if ds != [] {
      var d := ds[0];
      assert !IsReserved(d.attribute);
      var t2 := MapOne(t, p, d);
      assert MapResults(t, p, ds) == MapResults(t2, p, ds[1..]);
      MapStep(t, p, d, a, n);
      MapResultsAppends(t2, p, ds[1..], a, n);
      var mine := if d.attribute == a && d.validator == n then [RecordOf(d)] else [];
      assert Records(ds, a, n) == mine + Records(ds[1..], a, n);
      assert (ErrsAt(t, p + [a], n) + mine) + Records(ds[1..], a, n) == ErrsAt(t, p + [a], n) + (mine + Records(ds[1..], a, n));
    }
  }

  // ---------------------------------------------------------------------
  // Nested targets

  /** How many validations the nested children call for: the length of an array child, one for any other. */
  function Width(nested: seq<(string, Value)>): nat
    decreases |nested|
  {
    if nested == [] then 0
    else (if nested[0].1.Arr? then |nested[0].1.elems| else 1) + Width(nested[1..])
  }

  /** Exactly one validation per array element or non-array child. */
  lemma {:induction false} TargetsCount(nested: seq<(string, Value)>)
    ensures |Targets(nested)| == Width(nested)
    decreases |nested|
  {
    if nested != [] {
      TargetsCount(nested[1..]);
    }
  }

  /** A non-array child is validated under its key, element `i` of an array child under `key.i`. */
  lemma {:induction false} TargetsCover(nested: seq<(string, Value)>, j: nat)
    requires j < |nested|
    ensures !nested[j].1.Arr? ==> nested[j] in Targets(nested)
    ensures nested[j].1.Arr? ==> forall i :: 0 <= i < |nested[j].1.elems| ==>
      (nested[j].0 + "." + NatToString(i), nested[j].1.elems[i]) in Targets(nested)
    decreases j
  {
    var (k, child) := nested[0];
    var head := if child.Arr? then Elements(k, child.elems, 0) else [(k, child)];
    assert Targets(nested) == head + Targets(nested[1..]);
    if j == 0 {
      if child.Arr? {
        forall i | 0 <= i < |child.elems| ensures (k + "." + NatToString(i), child.elems[i]) in Targets(nested) {
          assert head[i] == (k + "." + NatToString(i), child.elems[i]);
        }
      }
    } else {
      TargetsCover(nested[1..], j - 1);
    }
  }

  /** Each validation is for a non-array child under its key, or for an element of an array child under `key.i`. */
  lemma {:induction false} TargetsOnly(nested: seq<(string, Value)>, e: (string, Value))
    requires e in Targets(nested)
    ensures exists j :: (0 <= j < |nested| &&
      ((!nested[j].1.Arr? && e == nested[j]) ||
       (nested[j].1.Arr? && (exists i :: 0 <= i < |nested[j].1.elems| && e == (nested[j].0 + "." + NatToString(i), nested[j].1.elems[i])))))
    decreases |nested|
  {
    var (k, child) := nested[0];
    var head := if child.Arr? then Elements(k, child.elems, 0) else [(k, child)];
    assert Targets(nested) == head + Targets(nested[1..]);
    if e in head {
      if child.Arr? {
        var i :| 0 <= i < |head| && head[i] == e;
        assert e == (nested[0].0 + "." + NatToString(i), nested[0].1.elems[i]);
      }
    } else {
      TargetsOnly(nested[1..], e);
      var j :| 0 <= j < |nested[1..]| &&
        ((!nested[1..][j].1.Arr? && e == nested[1..][j]) ||
         (nested[1..][j].1.Arr? && (exists i :: 0 <= i < |nested[1..][j].1.elems| && e == (nested[1..][j].0 + "." + NatToString(i), nested[1..][j].1.elems[i]))));
      assert nested[1..][j] == nested[j + 1];
    }
  }

  // ---------------------------------------------------------------------
  // `_buildConstraints`

  /** The spec of the last declaration of property `k` among `ds`, if any. */
  function LastSpec(ds: seq<Descriptor>, k: string): Option<Spec>
    decreases |ds|
  {
    if ds == [] then None
    else match LastSpec(ds[1..], k)
      case Some(s) => Some(s)
      case None => if ds[0].key == k then Some(ds[0].validate) else None
  }

  lemma {:induction false} LastSpecSome(ds: seq<Descriptor>, k: string)
    ensures LastSpec(ds, k).Some? <==> exists d :: d in ds && d.key == k
    decreases |ds|
  {
    if ds != [] {
      LastSpecSome(ds[1..], k);
      assert forall d :: d in ds <==> d == ds[0] || d in ds[1..];
    }
  }

  /** The constraint map gets one entry per declared property, the spec of its (last) declaration. */
  lemma {:induction false} BuildFromConstraints(o: Object, ds: seq<Descriptor>, c: ConstraintMap, nested: seq<(string, Value)>,
                                                validators: map<string, ValidatorFn>, cv: bool)
    ensures var r := BuildFrom(o, ds, c, nested, validators, cv).0;
      forall k :: (k in r <==> k in c || LastSpec(ds, k).Some?) &&
                  (k in r ==> r[k] == if LastSpec(ds, k).Some? then LastSpec(ds, k).value else c[k])
    decreases |ds|
  {
    if ds != [] {
      var d := ds[0];
      var child := Get(o, d.key);
      var nested' := if "nested" in d.validate && Truthy(child) then Assign(nested, d.key, child) else nested;
      BuildFromConstraints(o, ds[1..], c[d.key := d.validate], nested', AddForwarders(validators, d.validate, cv), cv);
    }
  }

  /**
   * The validator table keeps every registration it had; what it gains is
   * one forwarding validator for each constraint name other than `nested`
   * that it lacked, and every such name ends up registered.
   */
  lemma {:induction false} BuildFromTable(o: Object, ds: seq<Descriptor>, c: ConstraintMap, nested: seq<(string, Value)>,
                                          validators: map<string, ValidatorFn>, cv: bool)
    ensures var t := BuildFrom(o, ds, c, nested, validators, cv).2;
      && (forall n :: n in validators ==> n in t && t[n] == validators[n])
      && (forall n :: n in t && n !in validators ==>
            t[n] == Forwarding(n, cv) && n != "nested" && exists d :: d in ds && n in d.validate)
      && (forall d, n :: d in ds && n in d.validate && n != "nested" ==> n in t)
    decreases |ds|
  {
    if ds != [] {
      var d := ds[0];
      var child := Get(o, d.key);
      var nested' := if "nested" in d.validate && Truthy(child) then Assign(nested, d.key, child) else nested;
      var validators' := AddForwarders(validators, d.validate, cv);
      BuildFromTable(o, ds[1..], c[d.key := d.validate], nested', validators', cv);
      var t := BuildFrom(o, ds, c, nested, validators, cv).2;
      assert t == BuildFrom(o, ds[1..], c[d.key := d.validate], nested', validators', cv).2;
      forall n | n in t && n !in validators
        ensures t[n] == Forwarding(n, cv) && n != "nested" && exists d :: d in ds && n in d.validate
      {
        if n in validators' {
          assert d in ds;
        } else {
          var d' :| d' in ds[1..] && n in d'.validate;
          assert d' in ds;
        }
      }
      forall d', n | d' in ds && n in d'.validate && n != "nested" ensures n in t {
        if d' != d {
          assert d' in ds[1..];
        }
      }
    }
  }

  /**
   * The nested children are exactly the declared properties whose spec
   * names `nested` and whose value is truthy, each with its value.
   */
  lemma {:induction false} BuildFromNested(o: Object, ds: seq<Descriptor>, c: ConstraintMap, nested: seq<(string, Value)>,
                                           validators: map<string, ValidatorFn>, cv: bool)
    requires forall e :: e in nested ==> e.1 == Get(o, e.0)
    ensures var r := BuildFrom(o, ds, c, nested, validators, cv).1;
      && (forall e :: e in r ==>
            (e.1 == Get(o, e.0) && (e in nested || (Truthy(e.1) && exists d :: d in ds && d.key == e.0 && "nested" in d.validate))))
      && (forall e :: e in nested ==> exists e' :: e' in r && e'.0 == e.0)
      && (forall d :: d in ds && "nested" in d.validate && Truthy(Get(o, d.key)) ==> (d.key, Get(o, d.key)) in r)
    decreases |ds|
  {
    if ds != [] {
      var d := ds[0];
      var child := Get(o, d.key);
      var nested' := if "nested" in d.validate && Truthy(child) then Assign(nested, d.key, child) else nested;
      BuildFromNested(o, ds[1..], c[d.key := d.validate], nested', AddForwarders(validators, d.validate, cv), cv);
      var r := BuildFrom(o, ds, c, nested, validators, cv).1;
      assert r == BuildFrom(o, ds[1..], c[d.key := d.validate], nested', AddForwarders(validators, d.validate, cv), cv).1;
      forall e | e in r
        ensures e in nested || (Truthy(e.1) && exists d :: d in ds && d.key == e.0 && "nested" in d.validate)
      {
        if e !in nested && e in nested' {
          assert d in ds;
        } else if e !in nested' {
          var d' :| d' in ds[1..] && d'.key == e.0 && "nested" in d'.validate;
          assert d' in ds;
        }
      }
      forall e | e in nested ensures exists e' :: e' in r && e'.0 == e.0 {
        var e1 := if e.0 == d.key && nested' != nested then (d.key, child) else e;
        assert e1 in nested' && e1.0 == e.0;
      }
      forall d' | d' in ds && "nested" in d'.validate && Truthy(Get(o, d'.key)) ensures (d'.key, Get(o, d'.key)) in r {
        if d' == d {
          assert (d.key, child) in nested';
          var e' :| e' in r && e'.0 == d.key;
        } else {
          assert d' in ds[1..];
        }
      }
    }
  }

  /**
   * `_buildConstraints(target, nested)`: no constraint map when the target
   * declares nothing; otherwise one entry per declared property, holding
   * its spec (the `nested` name included); the children to validate are the
   * truthy values of the properties whose spec names `nested`; and the
   * validator table gains forwarding validators for the unknown names only.
   */
  lemma BuildConstraintsEffects(v: Value, validators: map<string, ValidatorFn>, cv: bool)
    ensures var (c, nested, t) := BuildConstraints(v, validators, cv);
      var ds := DescriptorsOf(v);
      && (c.None? <==> ds == [])
      && (c.Some? ==> forall k :: (k in c.value <==> exists d :: d in ds && d.key == k) &&
                                  (k in c.value ==> LastSpec(ds, k).Some? && c.value[k] == LastSpec(ds, k).value))
      && (forall n :: n in validators ==> n in t && t[n] == validators[n])
      && (forall n :: n in t && n !in validators ==>
            t[n] == Forwarding(n, cv) && n != "nested" && exists d :: d in ds && n in d.validate)
      && (forall d, n :: d in ds && n in d.validate && n != "nested" ==> n in t)
      && (forall e :: e in nested ==>
            (v.Obj? && e.1 == Get(v.obj, e.0) && Truthy(e.1) && exists d :: d in ds && d.key == e.0 && "nested" in d.validate))
      && (forall d :: d in ds && "nested" in d.validate && v.Obj? && Truthy(Get(v.obj, d.key)) ==> (d.key, Get(v.obj, d.key)) in nested)
  {
    var ds := DescriptorsOf(v);
    if ds != [] {
      BuildFromConstraints(v.obj, ds, map[], [], validators, cv);
      BuildFromTable(v.obj, ds, map[], [], validators, cv);
      BuildFromNested(v.obj, ds, map[], [], validators, cv);
      forall k ensures LastSpec(ds, k).Some? <==> exists d :: d in ds && d.key == k {
        LastSpecSome(ds, k);
      }
    }
  }

  // ---------------------------------------------------------------------
  // `matches` with flags (see Findings in README)

  /**
   * As written, a property declared with `matches(pattern, flags)` and truthy
   * flags makes `_buildConstraints` register a forwarding validator named
   * `flags`, which fails to resolve unless some handler provides one.
   */
  lemma MatchesFlagsRegistersForwarder(o: Object, key: string, pattern: Value, flags: Value, validators: map<string, ValidatorFn>, cv: bool)
    requires o.meta == Some([Descriptor(key, Constraints.SpecOf(Constraints.Matches(pattern, flags)))])
    requires Truthy(flags) && "flags" !in validators
    ensures var (c, _, t) := BuildConstraints(Obj(o), validators, cv);
      c.Some? && key in c.value && "flags" in c.value[key] && "flags" in t && t["flags"] == Forwarding("flags", cv)
  {
    var spec := Constraints.SpecOf(Constraints.Matches(pattern, flags));
    var d := Descriptor(key, spec);
    var nested := if "nested" in spec && Truthy(Get(o, key)) then Assign([], key, Get(o, key)) else [];
    assert BuildFrom(o, [d], map[], [], validators, cv) == BuildFrom(o, [], map[key := spec], nested, AddForwarders(validators, spec, cv), cv);
  }

  /** A spec whose names are all registered (or `nested`) adds no forwarder. */
  lemma AddForwardersKnown(validators: map<string, ValidatorFn>, spec: Spec, cv: bool)
    requires forall n :: n in spec ==> n == "nested" || n in validators
    ensures AddForwarders(validators, spec, cv) == validators
  {
    assert AddForwarders(validators, spec, cv).Keys == validators.Keys;
  }

  /** With the flags inside the `format` options, the same declaration needs no validator beyond validate.js's own. */
  lemma MatchesIntendedRegistersNothing(o: Object, key: string, pattern: Value, flags: Value, cv: bool)
    requires o.meta == Some([Descriptor(key, Constraints.MatchesIntended(pattern, flags))])
    ensures BuildConstraints(Obj(o), Initial(), cv).2 == Initial()
  {
    var spec := Constraints.MatchesIntended(pattern, flags);
    var table := Initial();
    assert "format" in Constraints.STANDARD;
    AddForwardersKnown(table, spec, cv);
    BuildFromOne(o, Descriptor(key, spec), table, cv);
  }

  /** One declaration adds the forwarders its spec needs, and nothing else. */
  lemma BuildFromOne(o: Object, d: Descriptor, validators: map<string, ValidatorFn>, cv: bool)
    ensures BuildFrom(o, [d], map[], [], validators, cv).2 == AddForwarders(validators, d.validate, cv)
  {
    var nested := if "nested" in d.validate && Truthy(Get(o, d.key)) then Assign([], d.key, Get(o, d.key)) else [];
    assert BuildFrom(o, [d], map[], [], validators, cv)
        == BuildFrom(o, [], map[d.key := d.validate], nested, AddForwarders(validators, d.validate, cv), cv);
  }

  // ---------------------------------------------------------------------
  // `validate` and `validateAsync`

  /** A missing object is rejected before anything is dispatched, and nothing changes. */
  lemma MissingObjectRejected(env: Env, st: State, store: ValidationResult, p: Path, v: Value)
    requires At(st.tree, p).Some? && IsNothing(v)
    ensures Validate(env, st, store, p, v) == (Err(MissingObject), st)
    ensures ValidateAsync(env, st, store, p, v) == (Raised(MissingObject), st)
  {
  }

  /** A validation that succeeds has bound the object's `$validation` to its results. */
  lemma SuccessBindsResults(env: Env, st: State, store: ValidationResult, p: Path, v: Value)
    requires At(st.tree, p).Some?
    ensures var r := Validate(env, st, store, p, v);
      r.0.Ok? ==> IsObjectLike(v) && v in r.1.bound && r.1.bound[v] == Handle(store, p)
    ensures var r := ValidateAsync(env, st, store, p, v);
      r.0 == Settled(Fulfilled) ==> IsObjectLike(v) && v in r.1.bound && r.1.bound[v] == Handle(store, p)
  {
  }

  /**
   * In asynchronous mode, a rejection of validate.js with an `Error` is
   * passed on unchanged: no nested child is validated and no error recorded.
   */
  lemma AsyncErrorPassedOn(env: Env, st: State, store: ValidationResult, p: Path, v: Value, e: Error)
    requires At(st.tree, p).Some? && v.Obj?
    requires var c := BuildConstraints(v, st.validators, env.checksValidate).0;
      c.Some? && env.evaluateAsync(v.obj, c.value) == Rejected(Failure(e))
    ensures var r := HandleAsync(env, st, store, p, v);
      r.0 == Rejected(Failure(e)) && r.1.tree == st.tree && r.1.bound == st.bound
  {
  }

  /**
   * In synchronous mode the flat errors are recorded after the nested
   * validations: every list at `p.a` ends with the records of the failed
   * checks on `a`.
   */
  lemma FlatErrorsLast(env: Env, st: State, store: ValidationResult, p: Path, v: Value, a: string, n: string)
    requires At(st.tree, p).Some? && v.Obj?
    requires var c := BuildConstraints(v, st.validators, env.checksValidate).0;
      c.Some? && env.evaluate(v.obj, c.value).Ok?
    requires HandleSync(env, st, store, p, v).0.Ok?
    ensures var c := BuildConstraints(v, st.validators, env.checksValidate).0;
      var ds := env.evaluate(v.obj, c.value).value;
      exists before :: ErrsAt(HandleSync(env, st, store, p, v).1.tree, p + [a], n) == before + Records(ds, a, n)
  {
    var (c, nested, validators) := BuildConstraints(v, st.validators, env.checksValidate);
    var ds := env.evaluate(v.obj, c.value).value;
    NestedProps(v.obj, DescriptorsOf(v), map[], [], st.validators, env.checksValidate);
    TargetsInside(v.obj, nested);
    var (r2, st2) := ValidateNested(env, st.(validators := validators), store, p, v.obj, Targets(nested), 0);
    MapResultsAppends(st2.tree, p, ds, a, n);
    assert ErrsAt(HandleSync(env, st, store, p, v).1.tree, p + [a], n) == ErrsAt(st2.tree, p + [a], n) + Records(ds, a, n);
  }

  /**
   * In asynchronous mode a rejection that is a list of failed checks is not
   * passed on: the nested children are validated first, and when the
   * handler fulfils, every list at `p.a` ends with the records of the failed
   * checks on `a`.
   */
  lemma AsyncFlatErrorsLast(env: Env, st: State, store: ValidationResult, p: Path, v: Value, a: string, n: string)
    requires At(st.tree, p).Some? && v.Obj?
    requires var c := BuildConstraints(v, st.validators, env.checksValidate).0;
      c.Some? && env.evaluateAsync(v.obj, c.value).Rejected? && env.evaluateAsync(v.obj, c.value).reason.Details?
    requires HandleAsync(env, st, store, p, v).0.Fulfilled?
    ensures var c := BuildConstraints(v, st.validators, env.checksValidate).0;
      var ds := env.evaluateAsync(v.obj, c.value).reason.details;
      exists before :: ErrsAt(HandleAsync(env, st, store, p, v).1.tree, p + [a], n) == before + Records(ds, a, n)
  {
    var (c, nested, validators) := BuildConstraints(v, st.validators, env.checksValidate);
    var ds := env.evaluateAsync(v.obj, c.value).reason.details;
    NestedProps(v.obj, DescriptorsOf(v), map[], [], st.validators, env.checksValidate);
    TargetsInside(v.obj, nested);
    var (r2, st2) := ValidateNestedAsync(env, st.(validators := validators), store, p, v.obj, Targets(nested), 0, []);
    MapResultsAppends(st2.tree, p, ds, a, n);
    assert ErrsAt(HandleAsync(env, st, store, p, v).1.tree, p + [a], n) == ErrsAt(st2.tree, p + [a], n) + Records(ds, a, n);
  }

  // ---------------------------------------------------------------------
  // What a validation may change

  /** Every registration of `a` is in `b`, unchanged. */
  predicate Grows(a: map<string, ValidatorFn>, b: map<string, ValidatorFn>) {
    forall n :: n in a ==> n in b && b[n] == a[n]
  }

  /** From `st` to `st2`, nodes apart from `p` are untouched and no registration is lost or replaced. */
  ghost predicate Keeps(st: State, st2: State, p: Path) {
    SameApart(st.tree, st2.tree, p) && Grows(st.validators, st2.validators)
  }

  lemma KeepsTrans(st1: State, st2: State, st3: State, p: Path)
    requires Keeps(st1, st2, p) && Keeps(st2, st3, p)
    ensures Keeps(st1, st3, p)
  {
  }

  lemma KeepsBelow(st1: State, st2: State, p: Path, k: string)
    requires Keeps(st1, st2, p + [k])
    ensures Keeps(st1, st2, p)
  {
    forall q | Apart(p, q) ensures At(st2.tree, q) == At(st1.tree, q) {
      ApartExtend(p, k, q);
    }
  }

  lemma PutApart(t: Tree, p: Path, u: Tree)
    requires At(t, p).Some?
    ensures SameApart(t, Put(t, p, u), p)
  {
    forall q | Apart(p, q) ensures At(Put(t, p, u), q) == At(t, q) {
      PutElsewhere(t, p, u, q);
    }
  }

  lemma BuildConstraintsGrows(v: Value, validators: map<string, ValidatorFn>, cv: bool)
    ensures Grows(validators, BuildConstraints(v, validators, cv).2)
  {
    BuildConstraintsEffects(v, validators, cv);
  }

  /** The `validateThat*` sweep records its errors at `p` only. */
  lemma {:induction false} SweepApart(env: Env, t: Tree, p: Path, o: Object, isAsync: bool, collect: bool, i: nat, promises: seq<Value>)
    requires At(t, p).Some?
    ensures SameApart(t, Sweep(env, t, p, o, isAsync, collect, i, promises).2, p)
    decreases |o.enumKeys| - i
  {
    if i < |o.enumKeys| {
      var key := o.enumKeys[i];
      if !IsValidateThat(key) {
        SweepApart(env, t, p, o, isAsync, collect, i + 1, promises);
      } else {
        var (r1, mine, t1) := CallMember(env, t, p, o, isAsync, collect, key);
        if IsFunction(Get(o, key)) && env.member(o, key, isAsync).Returned? {
          MapResultsApart(t, p, env.member(o, key, isAsync).reported);
        }
        if r1.Ok? {
          SweepApart(env, t1, p, o, isAsync, collect, i + 1, promises + mine);
        }
      }
    }
  }

  /** Keys without the `validateThat` prefix are skipped: the sweep from `i` is the sweep from `j`. */
  lemma {:induction false} SweepSkipsOthers(env: Env, t: Tree, p: Path, o: Object, isAsync: bool, collect: bool, i: nat, j: nat, promises: seq<Value>)
    requires At(t, p).Some? && i <= j <= |o.enumKeys|
    requires forall k :: i <= k < j ==> !IsValidateThat(o.enumKeys[k])
    ensures Sweep(env, t, p, o, isAsync, collect, i, promises) == Sweep(env, t, p, o, isAsync, collect, j, promises)
    decreases j - i
  {
    if i < j {
      SweepSkipsOthers(env, t, p, o, isAsync, collect, i + 1, j, promises);
    }
  }

  /**
   * The sweep only adds to the promises collected before it, what it adds
   * are promises, and with `collect` off (the synchronous path) it adds none.
   */
  lemma {:induction false} SweepCollectsPromises(env: Env, t: Tree, p: Path, o: Object, isAsync: bool, collect: bool, i: nat, promises: seq<Value>)
    requires At(t, p).Some?
    ensures var r := Sweep(env, t, p, o, isAsync, collect, i, promises);
      && |promises| <= |r.1| && r.1[..|promises|] == promises
      && (forall j :: |promises| <= j < |r.1| ==> IsPromise(r.1[j]))
      && (!collect ==> r.1 == promises)
    decreases |o.enumKeys| - i
  {
    if i < |o.enumKeys| {
      var key := o.enumKeys[i];
      if !IsValidateThat(key) {
        SweepCollectsPromises(env, t, p, o, isAsync, collect, i + 1, promises);
      } else {
        var (r1, mine, t1) := CallMember(env, t, p, o, isAsync, collect, key);
        if r1.Ok? {
          assert forall v :: v in mine ==> IsPromise(v);
          assert !collect ==> mine == [];
          SweepCollectsPromises(env, t1, p, o, isAsync, collect, i + 1, promises + mine);
          var r := Sweep(env, t1, p, o, isAsync, collect, i + 1, promises + mine);
          assert (promises + mine)[..|promises|] == promises;
          assert r.1[..|promises|] == (promises + mine)[..|promises|];
          forall j | |promises| <= j < |r.1| ensures IsPromise(r.1[j]) {
            if j < |promises + mine| {
              assert r.1[j] == (promises + mine)[j] == mine[j - |promises|];
            }
          }
          assert !collect ==> promises + mine == promises;
        }
      }
    }
  }

  /** Settling the collected promises records their errors at `p` only. */
  lemma {:induction false} AwaitAllApart(env: Env, t: Tree, p: Path, promises: seq<Value>, i: nat, outcomes: seq<Outcome>)
    requires At(t, p).Some? && i <= |promises|
    ensures SameApart(t, AwaitAll(env, t, p, promises, i, outcomes).1, p)
    decreases |promises| - i
  {
    if i < |promises| {
      var s := env.settle(promises[i]);
      var (r1, t1) := MapResults(t, p, s.reported);
      MapResultsApart(t, p, s.reported);
      AwaitAllApart(env, t1, p, promises, i + 1, outcomes + [if r1.Err? then Rejected(Failure(r1.error)) else s.outcome]);
    }
  }

  /**
   * A validation with results at `p` changes no node apart from `p` (its
   * errors and those of its nested children all land at or below `p`) and
   * never drops or replaces a registered validator.
   */
  lemma {:induction false} ValidateKeeps(env: Env, st: State, store: ValidationResult, p: Path, v: Value)
    requires At(st.tree, p).Some?
    ensures Keeps(st, Validate(env, st, store, p, v).1, p)
    decreases v, 2
  {
    if !IsNothing(v) {
      var (r1, st1) := HandleSync(env, st, store, p, v);
      HandleSyncKeeps(env, st, store, p, v);
      if r1.Ok? && IsObjectLike(v) && v.Obj? {
        var st2 := st1.(bound := st1.bound[v := Handle(store, p)]);
        SweepApart(env, st2.tree, p, v.obj, false, false, 0, []);
      }
    }
  }

  lemma {:induction false} HandleSyncKeeps(env: Env, st: State, store: ValidationResult, p: Path, v: Value)
    requires At(st.tree, p).Some?
    ensures Keeps(st, HandleSync(env, st, store, p, v).1, p)
    decreases v, 1
  {
    var (constraints, nested, validators) := BuildConstraints(v, st.validators, env.checksValidate);
    BuildConstraintsGrows(v, st.validators, env.checksValidate);
    var st1 := st.(validators := validators);
    if constraints.Some? && env.evaluate(v.obj, constraints.value).Ok? {
      var ds := env.evaluate(v.obj, constraints.value).value;
      NestedProps(v.obj, DescriptorsOf(v), map[], [], st.validators, env.checksValidate);
      TargetsInside(v.obj, nested);
      var (r2, st2) := ValidateNested(env, st1, store, p, v.obj, Targets(nested), 0);
      ValidateNestedKeeps(env, st1, store, p, v.obj, Targets(nested), 0);
      if r2.Ok? {
        MapResultsApart(st2.tree, p, ds);
      }
    }
  }

  lemma {:induction false} ValidateNestedKeeps(env: Env, st: State, store: ValidationResult, p: Path, o: Object, targets: seq<(string, Value)>, i: nat)
    requires At(st.tree, p).Some?
    requires forall e :: e in targets ==> Inside(e.1, o)
    ensures Keeps(st, ValidateNested(env, st, store, p, o, targets, i).1, p)
    decreases Obj(o), 0, |targets| - i
  {
    if i < |targets| && !IsReserved(targets[i].0) {
      var (k, child) := targets[i];
      assert Inside(child, o);
      var t1 := Put(st.tree, p, ResultTree.AddKey(NodeAt(st.tree, p), k));
      PutApart(st.tree, p, ResultTree.AddKey(NodeAt(st.tree, p), k));
      AtChild(t1, p, k);
      var (r1, st1) := Validate(env, st.(tree := t1), store, p + [k], child);
      ValidateKeeps(env, st.(tree := t1), store, p + [k], child);
      KeepsBelow(st.(tree := t1), st1, p, k);
      AtParent(st1.tree, p, k);
      if r1.Ok? {
        ValidateNestedKeeps(env, st1, store, p, o, targets, i + 1);
      }
    }
  }

  /** `validateAsync` with results at `p` likewise changes no node apart from `p` and loses no registration. */
  lemma {:induction false} ValidateAsyncKeeps(env: Env, st: State, store: ValidationResult, p: Path, v: Value)
    requires At(st.tree, p).Some?
    ensures Keeps(st, ValidateAsync(env, st, store, p, v).1, p)
    decreases v, 2
  {
    if !IsNothing(v) {
      var (o1, st1) := HandleAsync(env, st, store, p, v);
      HandleAsyncKeeps(env, st, store, p, v);
      if o1.Fulfilled? && IsObjectLike(v) && v.Obj? {
        var st2 := st1.(bound := st1.bound[v := Handle(store, p)]);
        var (r3, promises, t3) := Sweep(env, st2.tree, p, v.obj, true, true, 0, []);
        SweepApart(env, st2.tree, p, v.obj, true, true, 0, []);
        if r3.Ok? {
          AwaitAllApart(env, t3, p, promises, 0, []);
        }
      }
    }
  }

  lemma {:induction false} HandleAsyncKeeps(env: Env, st: State, store: ValidationResult, p: Path, v: Value)
    requires At(st.tree, p).Some?
    ensures Keeps(st, HandleAsync(env, st, store, p, v).1, p)
    decreases v, 1
  {
    var (constraints, nested, validators) := BuildConstraints(v, st.validators, env.checksValidate);
    BuildConstraintsGrows(v, st.validators, env.checksValidate);
    var st1 := st.(validators := validators);
    if constraints.Some? {
      NestedProps(v.obj, DescriptorsOf(v), map[], [], st.validators, env.checksValidate);
      TargetsInside(v.obj, nested);
      var targets := Targets(nested);
      if env.evaluateAsync(v.obj, constraints.value).Fulfilled? {
        var (n, st2) := ValidateNestedAsync(env, st1, store, p, v.obj, targets, 0, []);
        ValidateNestedAsyncKeeps(env, st1, store, p, v.obj, targets, 0, []);
        CaughtKeeps(env, st2, store, p, v.obj, targets, Settle(n));
      } else {
        CaughtKeeps(env, st1, store, p, v.obj, targets, env.evaluateAsync(v.obj, constraints.value));
      }
    }
  }

  lemma {:induction false} CaughtKeeps(env: Env, st: State, store: ValidationResult, p: Path, o: Object, targets: seq<(string, Value)>, settled: Outcome)
    requires At(st.tree, p).Some?
    requires forall e :: e in targets ==> Inside(e.1, o)
    ensures Keeps(st, Caught(env, st, store, p, o, targets, settled).1, p)
    decreases Obj(o), 0, |targets| + 1
  {
    if settled.Rejected? && settled.reason.Details? {
      var (n, st2) := ValidateNestedAsync(env, st, store, p, o, targets, 0, []);
      ValidateNestedAsyncKeeps(env, st, store, p, o, targets, 0, []);
      MapResultsApart(st2.tree, p, settled.reason.details);
    }
  }

  lemma {:induction false} ValidateNestedAsyncKeeps(env: Env, st: State, store: ValidationResult, p: Path, o: Object,
                                                    targets: seq<(string, Value)>, i: nat, pending: seq<Outcome>)
    requires At(st.tree, p).Some?
    requires forall e :: e in targets ==> Inside(e.1, o)
    ensures Keeps(st, ValidateNestedAsync(env, st, store, p, o, targets, i, pending).1, p)
    decreases Obj(o), 0, |targets| - i
  {
    if i < |targets| && !IsReserved(targets[i].0) {
      var (k, child) := targets[i];
      assert Inside(child, o);
      var t1 := Put(st.tree, p, ResultTree.AddKey(NodeAt(st.tree, p), k));
      PutApart(st.tree, p, ResultTree.AddKey(NodeAt(st.tree, p), k));
      AtChild(t1, p, k);
      var (a, st1) := ValidateAsync(env, st.(tree := t1), store, p + [k], child);
      ValidateAsyncKeeps(env, st.(tree := t1), store, p + [k], child);
      KeepsBelow(st.(tree := t1), st1, p, k);
      AtParent(st1.tree, p, k);
      if a.Settled? {
        ValidateNestedAsyncKeeps(env, st1, store, p, o, targets, i + 1, pending + [a.outcome]);
      }
    }
  }
}
