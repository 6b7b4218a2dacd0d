/**
 * Properties of the result tree (dist/amd/miruken-validate.js:23-120): what
 * `valid` and `errors` report, how the `errors` cache behaves, and how child
 * errors are re-keyed when they are flattened into a parent.
 */
module ResultTreeFacts {
  import opened Wrappers
  import opened Js
  import opened ResultTree

  /** `e` is among the records `o` reports under `n`. */
  predicate InMap(o: Option<ErrorMap>, n: string, e: ErrorRecord) {
    o.Some? && n in o.value && e in o.value[n]
  }

  /** The flattened errors of child `k` hold a record that, re-keyed under `k`, is `e`. */
  ghost predicate FromChild(t: Tree, k: string, n: string, e: ErrorRecord)
    requires k in t.kids
  {
    exists e' :: InMap(Flat(t.kids[k]), n, e') && e == Rewrite(k, e')
  }

  // ---------------------------------------------------------------------
  // Mutators

  /** `addKey` keeps the shape invariant and is idempotent: a second call adds nothing. */
  lemma AddKeyWellFormed(t: Tree, key: string)
    requires Wf(t) && !IsReserved(key)
    ensures Wf(AddKey(t, key))
    ensures key in AddKey(t, key).kids
    ensures AddKey(AddKey(t, key), key) == AddKey(t, key)
    ensures key in t.kids ==> AddKey(t, key) == t
    ensures key !in t.kids ==> AddKey(t, key).kids[key] == Empty && AddKey(t, key).keys == t.keys + [key]
  {
    var u := AddKey(t, key);
    if key !in t.kids {
      forall i, j | 0 <= i < j < |u.keys| ensures u.keys[i] != u.keys[j] {
        if j == |t.keys| { assert u.keys[j] == key && u.keys[i] == t.keys[i]; assert t.keys[i] in t.kids; }
      }
    }
  }

  /** `addError` appends at the end of its own list, touches no other list and no child, and makes the node invalid. */
  lemma AddErrorEffects(t: Tree, name: string, e: ErrorRecord)
    requires Wf(t)
    ensures Wf(AddError(t, name, e))
    ensures AddError(t, name, e).errs[name] == (if name in t.errs then t.errs[name] else []) + [e]
    ensures forall n :: n in t.errs && n != name ==> AddError(t, name, e).errs[n] == t.errs[n]
    ensures AddError(t, name, e).errs.Keys == t.errs.Keys + {name}
    ensures AddError(t, name, e).keys == t.keys && AddError(t, name, e).kids == t.kids
    ensures AddError(t, name, e).summary == None
    ensures !IsValid(AddError(t, name, e)) && HasErrors(AddError(t, name, e))
  {
  }

  /** After `reset` the node is valid and reports no errors. */
  lemma ResetIsValid()
    ensures IsValid(Empty) && Wf(Empty) && NoCache(Empty)
    ensures Errors(Empty) == (None, Empty)
  {
  }

  // ---------------------------------------------------------------------
  // `valid`

  /** With no cached summary anywhere, `valid` holds exactly when no node has an error. */
  lemma {:induction false} ValidIffNoErrors(t: Tree)
    requires NoCache(t)
    ensures IsValid(t) <==> !HasErrors(t)
    decreases t
  {
    forall k | k in t.kids ensures IsValid(t.kids[k]) <==> !HasErrors(t.kids[k]) {
      ValidIffNoErrors(t.kids[k]);
    }
  }

  /** A cached summary makes a node invalid whatever its children say. */
  lemma CachedSummaryIsInvalid(t: Tree)
    requires t.summary.Some?
    ensures !IsValid(t)
  {
  }

  // ---------------------------------------------------------------------
  // `errors`: agreement with the uncached reference

  /** Without caches, `errors` reports the reference flattening. */
  lemma {:induction false} ErrorsAgreesWithFlat(t: Tree)
    requires NoCache(t)
    ensures Errors(t).0 == Flat(t)
    decreases t, 1
  {
    ErrorsFromAgrees(t, 0, Seed(t), t.kids);
  }

  lemma {:induction false} ErrorsFromAgrees(t: Tree, i: nat, acc: Option<ErrorMap>, kids: map<string, Tree>)
    requires NoCache(t)
    ensures ErrorsFrom(t, i, acc, kids).0 == FlatFrom(t, i, acc)
    decreases t, 0, |t.keys| - i
  {
    if i < |t.keys| {
      var k := t.keys[i];
      if k in t.kids {
        ErrorsAgreesWithFlat(t.kids[k]);
        var (ce, ck) := Errors(t.kids[k]);
        var acc' := if ce.Some? then Some(Merge(acc.GetOr(map[]), k, ce.value)) else acc;
        ErrorsFromAgrees(t, i + 1, acc', kids[k := ck]);
      } else {
        ErrorsFromAgrees(t, i + 1, acc, kids);
      }
    }
  }

  // ---------------------------------------------------------------------
  // `errors`: what it changes

  /** `errors` changes nothing but cached summaries: own lists and children stay as they were. */
  lemma {:induction false} ErrorsOnlyFillsCaches(t: Tree)
    ensures SameData(Errors(t).1, t)
    decreases t, 1
  {
    SameDataRefl(t);
    if t.summary.None? {
      ErrorsFromOnlyFillsCaches(t, 0, Seed(t), t.kids);
    }
  }

  lemma {:induction false} ErrorsFromOnlyFillsCaches(t: Tree, i: nat, acc: Option<ErrorMap>, kids: map<string, Tree>)
    requires kids.Keys == t.kids.Keys
    requires forall k :: k in kids ==> SameData(kids[k], t.kids[k])
    ensures ErrorsFrom(t, i, acc, kids).1.Keys == t.kids.Keys
    ensures forall k :: k in t.kids ==> SameData(ErrorsFrom(t, i, acc, kids).1[k], t.kids[k])
    decreases t, 0, |t.keys| - i
  {
    if i < |t.keys| {
      var k := t.keys[i];
      if k in t.kids {
        ErrorsOnlyFillsCaches(t.kids[k]);
        var (ce, ck) := Errors(t.kids[k]);
        var acc' := if ce.Some? then Some(Merge(acc.GetOr(map[]), k, ce.value)) else acc;
        ErrorsFromOnlyFillsCaches(t, i + 1, acc', kids[k := ck]);
      } else {
        ErrorsFromOnlyFillsCaches(t, i + 1, acc, kids);
      }
    }
  }

  lemma {:induction false} SameDataRefl(t: Tree)
    ensures SameData(t, t)
    decreases t
  {
    forall k | k in t.kids ensures SameData(t.kids[k], t.kids[k]) {
      SameDataRefl(t.kids[k]);
    }
  }

  /** Trees with the same data have the same shape. */
  lemma {:induction false} SameDataWf(t: Tree, u: Tree)
    requires Wf(t) && SameData(u, t)
    ensures Wf(u)
    decreases t
  {
    forall k | k in u.kids ensures !IsReserved(k) && Wf(u.kids[k]) {
      SameDataWf(t.kids[k], u.kids[k]);
    }
  }

  /** Reading `errors` keeps the shape of the tree. */
  lemma ErrorsKeepWf(t: Tree)
    requires Wf(t)
    ensures Wf(Errors(t).1)
  {
    ErrorsOnlyFillsCaches(t);
    SameDataWf(t, Errors(t).1);
  }

  // ---------------------------------------------------------------------
  // `errors`: memoisation

  /** Reading `errors` twice reports the same thing and changes nothing the second time. */
  lemma ErrorsIdempotent(t: Tree)
    ensures Errors(Errors(t).1) == Errors(t)
  {
    var (r, u) := Errors(t);
    if t.summary.None? {
      if r.None? {
        AbsentLeavesTreeUnchanged(t);
      } else {
        assert u.summary == r;
      }
    }
  }

  /** When `errors` is absent, reading it changes nothing. */
  lemma {:induction false} AbsentLeavesTreeUnchanged(t: Tree)
    requires Errors(t).0.None?
    ensures Errors(t).1 == t
    decreases t, 1
  {
    if t.summary.None? {
      ErrorsFromAbsent(t, 0, Seed(t));
    }
  }

  lemma {:induction false} ErrorsFromAbsent(t: Tree, i: nat, acc: Option<ErrorMap>)
    requires ErrorsFrom(t, i, acc, t.kids).0.None?
    ensures acc.None? && ErrorsFrom(t, i, acc, t.kids).1 == t.kids
    decreases t, 0, |t.keys| - i
  {
    if acc.Some? {
      ErrorsFromPresent(t, i, acc, t.kids);
    } else if i < |t.keys| {
      var k := t.keys[i];
      if k in t.kids {
        var (ce, ck) := Errors(t.kids[k]);
        if ce.Some? {
          ErrorsFromPresent(t, i + 1, Some(Merge(map[], k, ce.value)), t.kids[k := ck]);
        } else {
          AbsentLeavesTreeUnchanged(t.kids[k]);
          assert t.kids[k := ck] == t.kids;
          ErrorsFromAbsent(t, i + 1, acc);
        }
      } else {
        ErrorsFromAbsent(t, i + 1, acc);
      }
    }
  }

  /** Once the summary has an entry, the rest of the loop keeps it present. */
  lemma {:induction false} ErrorsFromPresent(t: Tree, i: nat, acc: Option<ErrorMap>, kids: map<string, Tree>)
    requires acc.Some?
    ensures ErrorsFrom(t, i, acc, kids).0.Some?
    decreases |t.keys| - i
  {
    if i < |t.keys| {
      var k := t.keys[i];
      if k in t.kids {
        var (ce, ck) := Errors(t.kids[k]);
        var acc' := if ce.Some? then Some(Merge(acc.GetOr(map[]), k, ce.value)) else acc;
        ErrorsFromPresent(t, i + 1, acc', kids[k := ck]);
      } else {
        ErrorsFromPresent(t, i + 1, acc, kids);
      }
    }
  }

  // ---------------------------------------------------------------------
  // The reference flattening

  /** Every child is listed among the keys, at every node: what flattening needs to see all errors. */
  ghost predicate Listed(t: Tree)
    decreases t
  {
    forall k :: k in t.kids ==> k in t.keys && Listed(t.kids[k])
  }

  lemma {:induction false} WfListed(t: Tree)
    requires Wf(t)
    ensures Listed(t)
    decreases t
  {
    forall k | k in t.kids ensures Listed(t.kids[k]) {
      WfListed(t.kids[k]);
    }
  }

  /** The flattening is absent exactly when no node of the tree has an error. */
  lemma FlatAbsentIff(t: Tree)
    requires Listed(t)
    ensures Flat(t).None? <==> !HasErrors(t)
  {
    FlatFromAbsentIff(t, 0, Seed(t));
    if t.errs == map[] && HasErrors(t) {
      var k :| k in t.kids && HasErrors(t.kids[k]);
      var j :| 0 <= j < |t.keys| && t.keys[j] == k;
    }
  }

  lemma {:induction false} FlatFromAbsentIff(t: Tree, i: nat, acc: Option<ErrorMap>)
    requires Listed(t)
    ensures FlatFrom(t, i, acc).None? <==>
              acc.None? && forall j :: i <= j < |t.keys| && t.keys[j] in t.kids ==> !HasErrors(t.kids[t.keys[j]])
    decreases t, 0, |t.keys| - i
  {
    if i < |t.keys| {
      var k := t.keys[i];
      if k in t.kids {
        FlatAbsentIff(t.kids[k]);
      }
      var ce := if k in t.kids then Flat(t.kids[k]) else None;
      FlatFromAbsentIff(t, i + 1, if ce.Some? then Some(Merge(acc.GetOr(map[]), k, ce.value)) else acc);
    }
  }

  /** The node's own lists come first in the flattening, child errors only after them. */
  lemma OwnErrorsFirst(t: Tree, n: string)
    requires n in t.errs
    ensures Flat(t).Some? && n in Flat(t).value
    ensures t.errs[n] <= Flat(t).value[n]
  {
    FlatFromKeepsPrefix(t, 0, Seed(t), n, t.errs[n]);
  }

  lemma {:induction false} FlatFromKeepsPrefix(t: Tree, i: nat, acc: Option<ErrorMap>, n: string, p: seq<ErrorRecord>)
    requires acc.Some? && n in acc.value && p <= acc.value[n]
    ensures FlatFrom(t, i, acc).Some?
    ensures n in FlatFrom(t, i, acc).value && p <= FlatFrom(t, i, acc).value[n]
    decreases |t.keys| - i
  {
    if i < |t.keys| {
      var k := t.keys[i];
      if k in t.kids {
        var ce := Flat(t.kids[k]);
        if ce.Some? {
          var m := Merge(acc.value, k, ce.value);
          assert n in m;
          assert m[n] == acc.value[n] + (if n in ce.value then RewriteAll(k, ce.value[n]) else []);
          FlatFromKeepsPrefix(t, i + 1, Some(m), n, p);
        } else {
          FlatFromKeepsPrefix(t, i + 1, acc, n, p);
        }
      } else {
        FlatFromKeepsPrefix(t, i + 1, acc, n, p);
      }
    }
  }

  // ---------------------------------------------------------------------
  // Membership: which records the flattening reports

  lemma RewriteAllMembers(k: string, es: seq<ErrorRecord>, e: ErrorRecord)
    ensures e in RewriteAll(k, es) <==> exists e' :: e' in es && e == Rewrite(k, e')
  {
    var r := RewriteAll(k, es);
    if e in r {
      var i :| 0 <= i < |r| && r[i] == e;
      RewriteAllAt(k, es, i);
      assert es[i] in es && e == Rewrite(k, es[i]);
    }
    if exists e' :: e' in es && e == Rewrite(k, e') {
      var e' :| e' in es && e == Rewrite(k, e');
      var i :| 0 <= i < |es| && es[i] == e';
      RewriteAllAt(k, es, i);
      assert r[i] == e;
    }
  }

  /** Position `i` of the re-keyed list is the re-keyed record at position `i`. */
  lemma {:induction false} RewriteAllAt(k: string, es: seq<ErrorRecord>, i: nat)
    requires i < |es|
    ensures RewriteAll(k, es)[i] == Rewrite(k, es[i])
  {
    if i > 0 {
      RewriteAllAt(k, es[1..], i - 1);
    }
  }

  /** Re-keying a list one record longer appends one re-keyed record. */
  lemma {:induction false} RewriteAllSnoc(k: string, es: seq<ErrorRecord>, e: ErrorRecord)
    ensures RewriteAll(k, es + [e]) == RewriteAll(k, es) + [Rewrite(k, e)]
  {
    if es != [] {
      assert (es + [e])[1..] == es[1..] + [e];
      RewriteAllSnoc(k, es[1..], e);
    }
  }

  /** Merging a child summary keeps every earlier record and adds exactly the child's records, re-keyed. */
  lemma MergeMembers(acc: ErrorMap, k: string, m: ErrorMap, n: string, e: ErrorRecord)
    ensures InMap(Some(Merge(acc, k, m)), n, e) <==>
              (n in acc && e in acc[n]) || (n in m && exists e' :: e' in m[n] && e == Rewrite(k, e'))
  {
    if n in m {
      RewriteAllMembers(k, m[n], e);
    }
  }

  /**
   * A record is in the flattening exactly when it is one of the node's own
   * records, or it is a record of some child's flattening with its key
   * rewritten under that child's key.
   */
  lemma FlatMembers(t: Tree, n: string, e: ErrorRecord)
    requires forall k :: k in t.kids ==> k in t.keys
    ensures InMap(Flat(t), n, e) <==> (n in t.errs && e in t.errs[n]) || exists k :: k in t.kids && FromChild(t, k, n, e)
  {
    FlatFromMembers(t, 0, Seed(t), n, e);
    assert InMap(Seed(t), n, e) <==> n in t.errs && e in t.errs[n];
    if exists k :: k in t.kids && FromChild(t, k, n, e) {
      var k :| k in t.kids && FromChild(t, k, n, e);
      assert k in t.keys;
      var j :| 0 <= j < |t.keys| && t.keys[j] == k;
      assert t.keys[j] in t.kids && FromChild(t, t.keys[j], n, e);
    }
  }

  lemma {:induction false} FlatFromMembers(t: Tree, i: nat, acc: Option<ErrorMap>, n: string, e: ErrorRecord)
    ensures InMap(FlatFrom(t, i, acc), n, e) <==>
              InMap(acc, n, e) || exists j :: i <= j < |t.keys| && t.keys[j] in t.kids && FromChild(t, t.keys[j], n, e)
    decreases |t.keys| - i
  {
    if i < |t.keys| {
      var k := t.keys[i];
      if k in t.kids {
        var ce := Flat(t.kids[k]);
        var acc' := if ce.Some? then Some(Merge(acc.GetOr(map[]), k, ce.value)) else acc;
        FlatFromMembers(t, i + 1, acc', n, e);
        if ce.Some? {
          MergeMembers(acc.GetOr(map[]), k, ce.value, n, e);
          if FromChild(t, k, n, e) {
            var e' :| InMap(Flat(t.kids[k]), n, e') && e == Rewrite(k, e');
            assert n in ce.value && e' in ce.value[n];
          }
          if n in ce.value && exists e' :: e' in ce.value[n] && e == Rewrite(k, e') {
            var e' :| e' in ce.value[n] && e == Rewrite(k, e');
            assert InMap(Flat(t.kids[k]), n, e');
          }
        } else {
          assert !FromChild(t, k, n, e);
        }
        if exists j :: i <= j < |t.keys| && t.keys[j] in t.kids && FromChild(t, t.keys[j], n, e) {
          var j :| i <= j < |t.keys| && t.keys[j] in t.kids && FromChild(t, t.keys[j], n, e);
          if j > i {
            assert i + 1 <= j < |t.keys| && t.keys[j] in t.kids && FromChild(t, t.keys[j], n, e);
          }
        }
      } else {
        FlatFromMembers(t, i + 1, acc, n, e);
        if exists j :: i <= j < |t.keys| && t.keys[j] in t.kids && FromChild(t, t.keys[j], n, e) {
          var j :| i <= j < |t.keys| && t.keys[j] in t.kids && FromChild(t, t.keys[j], n, e);
          assert j != i;
        }
      }
    }
  }

  // ---------------------------------------------------------------------
  // The getter as written, on a strict host without a global `name`

  /** A tree with an error somewhere reports at least one record. */
  lemma {:induction false} HasErrorsReportsRecord(t: Tree)
    requires Wf(t) && HasErrors(t)
    ensures exists n, e :: InMap(Flat(t), n, e)
    decreases t
  {
    if t.errs != map[] {
      var n :| n in t.errs;
      var e := t.errs[n][0];
      FlatMembers(t, n, e);
    } else {
      var k :| k in t.kids && HasErrors(t.kids[k]);
      HasErrorsReportsRecord(t.kids[k]);
      var n, e' :| InMap(Flat(t.kids[k]), n, e');
      var e := Rewrite(k, e');
      assert FromChild(t, k, n, e);
      FlatMembers(t, n, e);
    }
  }

  /** Without caches, a child's `errors` names some error exactly when the child's subtree holds one. */
  lemma ChildNamesSomeIff(c: Tree)
    requires Wf(c) && NoCache(c)
    ensures NamesSome(Errors(c).0) <==> HasErrors(c)
  {
    ErrorsAgreesWithFlat(c);
    WfListed(c);
    FlatAbsentIff(c);
    if HasErrors(c) {
      HasErrorsReportsRecord(c);
    }
  }

  /**
   * As written, on a strict host without a global `name`, reading `errors`
   * of a cache-free node throws exactly when some child subtree holds an
   * error, so no nested failure can be read back.
   */
  lemma {:induction false} StrictErrorsThrowsIff(t: Tree)
    requires Wf(t) && NoCache(t)
    ensures ErrorsThrowsStrict(t) <==> exists k :: k in t.kids && HasErrors(t.kids[k])
    decreases t, 1
  {
    StrictErrorsFromThrowsIff(t, 0);
    forall k | k in t.kids && HasErrors(t.kids[k])
      ensures exists j :: 0 <= j < |t.keys| && t.keys[j] in t.kids && HasErrors(t.kids[t.keys[j]])
    {
      var j :| 0 <= j < |t.keys| && t.keys[j] == k;
    }
  }

  lemma {:induction false} StrictErrorsFromThrowsIff(t: Tree, i: nat)
    requires Wf(t) && NoCache(t)
    ensures ErrorsFromThrowsStrict(t, i) <==>
              exists j :: i <= j < |t.keys| && t.keys[j] in t.kids && HasErrors(t.kids[t.keys[j]])
    decreases t, 0, |t.keys| - i
  {
    if i < |t.keys| {
      var k := t.keys[i];
      if k in t.kids {
        StrictErrorsThrowsIff(t.kids[k]);
        ChildNamesSomeIff(t.kids[k]);
      }
      StrictErrorsFromThrowsIff(t, i + 1);
    }
  }

  /** The smallest input: a root whose one child holds one error. */
  lemma StrictErrorsThrowsOnNestedError(e: ErrorRecord)
    ensures ErrorsThrowsStrict(Tree(map[], None, ["child"], map["child" := AddError(Empty, "presence", e)]))
  {
    var c := AddError(Empty, "presence", e);
    var t := Tree(map[], None, ["child"], map["child" := c]);
    assert Wf(c) && NoCache(c) && HasErrors(c);
    ChildNamesSomeIff(c);
    assert ErrorsFromThrowsStrict(t, 0);
  }
}
