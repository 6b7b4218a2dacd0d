/**
 * `ValidationResult` (dist/amd/miruken-validate.js:23-120) as a mutable
 * object. One object holds a whole result tree; `root` is the value of the
 * root node and its descendants (module ResultTree). A node that the source
 * hands around by reference (the return value of `addKey`) is named here by
 * its `Path`, the keys that lead to it from the root, and every operation
 * takes the path of the node it acts on.
 */
module Results {
  import opened Wrappers
  import opened ResultTree
  import ResultTreeFacts

  /** A node of a result tree, named by the child keys that lead to it from the root. */
  type Path = seq<string>

  /** The node at path `p`, if there is one. */
  function At(t: Tree, p: Path): Option<Tree>
    decreases |p|
  {
    if p == [] then Some(t)
    else if p[0] in t.kids then At(t.kids[p[0]], p[1..])
    else None
  }

  /** `t` with the node at path `p` replaced by `u`. */
  function Put(t: Tree, p: Path, u: Tree): (r: Tree)
    requires At(t, p).Some?
    ensures At(r, p) == Some(u)
    decreases |p|
  {
    if p == [] then u
    else
      var r := t.(kids := t.kids[p[0] := Put(t.kids[p[0]], p[1..], u)]);
      assert r.kids[p[0]] == Put(t.kids[p[0]], p[1..], u);
      r
  }

  /** The node at path `p` of `t`, or an empty node where there is none. */
  function NodeAt(t: Tree, p: Path): Tree {
    At(t, p).GetOr(Empty)
  }

  /** A reference to a node: the result object that holds the tree, and the node's path in it. */
  datatype Handle = Handle(store: ValidationResult, path: Path)

  class ValidationResult {
    /** The root node and everything below it. */
    var root: Tree

    /** The tree has the shape every result tree has. */
    ghost predicate Valid()
      reads this
    {
      Wf(root)
    }

    /** There is a node at path `p`. */
    predicate Has(p: Path)
      reads this
    {
      At(root, p).Some?
    }

    /** `new ValidationResult()`: a tree of one empty node. */
    constructor ()
      ensures Valid() && root == Empty
    {
      root := Empty;
    }

    /**
     * `addKey(key)` on the node at `node`: the path of the existing or new
     * child. A reserved key names a member of the node, never a child, and
     * yields no node.
     */
    method AddKey(node: Path, key: string) returns (child: Option<Path>)
      requires Valid() && Has(node)
      modifies this
      ensures Valid()
      ensures IsReserved(key) ==> child == None && root == old(root)
      ensures !IsReserved(key) ==> child == Some(node + [key])
      ensures !IsReserved(key) ==> root == Put(old(root), node, ResultTree.AddKey(NodeAt(old(root), node), key))
    {
      if IsReserved(key) {
        return None;
      }
      var n := At(root, node).value;
      WfAt(root, node);
      ResultTreeFacts.AddKeyWellFormed(n, key);
      root := Put(root, node, ResultTree.AddKey(n, key));
      WfPut(old(root), node, ResultTree.AddKey(n, key));
      child := Some(node + [key]);
    }

    /** `addError(name, error)` on the node at `node`; returns that node. */
    method AddError(node: Path, name: string, e: ErrorRecord) returns (self: Path)
      requires Valid() && Has(node)
      modifies this
      ensures Valid() && self == node
      ensures root == Put(old(root), node, ResultTree.AddError(NodeAt(old(root), node), name, e))
    {
      var n := At(root, node).value;
      WfAt(root, node);
      ResultTreeFacts.AddErrorEffects(n, name, e);
      var named := if name in n.errs then n.errs[name] else [];
      var u := n.(errs := n.errs[name := named + [e]], summary := None);
      root := Put(root, node, u);
      WfPut(old(root), node, u);
      self := node;
    }

    /** `reset()` on the node at `node`: drop its errors and cache and delete every child; returns the node. */
    method Reset(node: Path) returns (self: Path)
      requires Valid() && Has(node)
      modifies this
      ensures Valid() && self == node
      ensures root == Put(old(root), node, Empty)
    {
      var n := At(root, node).value;
      WfAt(root, node);
      var ownKeys := n.keys;
      var kids := n.kids;
      var i := 0;
      while i < |ownKeys|
        invariant 0 <= i <= |ownKeys|
        invariant forall k :: k in kids <==> k in ownKeys[i..]
      {
        kids := kids - {ownKeys[i]};
        i := i + 1;
      }
      assert kids == map[];
      root := Put(root, node, Tree(map[], None, [], kids));
      ResultTreeFacts.ResetIsValid();
      WfPut(old(root), node, Empty);
      self := node;
    }

    /** The `valid` getter of the node at `node`. */
    method IsValid(node: Path) returns (b: bool)
      requires Valid() && Has(node)
      ensures b == ResultTree.IsValid(NodeAt(root, node))
    {
      WfAt(root, node);
      b := ValidOf(At(root, node).value);
    }

    /** The `errors` getter of the node at `node`; fills the caches of that node and its descendants. */
    method Errors(node: Path) returns (r: Option<ErrorMap>)
      requires Valid() && Has(node)
      modifies this
      ensures Valid()
      ensures (r, NodeAt(root, node)) == ResultTree.Errors(NodeAt(old(root), node))
      ensures root == Put(old(root), node, ResultTree.Errors(NodeAt(old(root), node)).1)
    {
      var n := At(root, node).value;
      WfAt(root, node);
      var u;
      r, u := ErrorsOf(n);
      ResultTreeFacts.ErrorsKeepWf(n);
      root := Put(root, node, u);
      WfPut(old(root), node, u);
    }
  }

  /** The loop of the `valid` getter: own errors or a cache make a node invalid, then every child is asked. */
  method ValidOf(t: Tree) returns (b: bool)
    requires Wf(t)
    ensures b == ResultTree.IsValid(t)
    decreases t
  {
    if t.errs != map[] || t.summary.Some? {
      return false;
    }
    var i := 0;
    while i < |t.keys|
      invariant 0 <= i <= |t.keys|
      invariant forall j :: 0 <= j < i ==> ResultTree.IsValid(t.kids[t.keys[j]])
    {
      var v := ValidOf(t.kids[t.keys[i]]);
      if !v {
        return false;
      }
      i := i + 1;
    }
    forall k | k in t.kids ensures ResultTree.IsValid(t.kids[k]) {
      var j :| 0 <= j < |t.keys| && t.keys[j] == k;
    }
    return true;
  }

  /**
   * The loop of the `errors` getter: the cached summary if there is one;
   * otherwise the own lists, then each child's `errors` merged in key order.
   * Returns the summary and the node with every cache it filled.
   */
  method ErrorsOf(t: Tree) returns (r: Option<ErrorMap>, u: Tree)
    ensures (r, u) == ResultTree.Errors(t)
    decreases t, 1
  {
    if t.summary.Some? {
      return t.summary, t;
    }
    var acc := Seed(t);
    var kids := t.kids;
    var i := 0;
    while i < |t.keys|
      invariant 0 <= i <= |t.keys|
      invariant ErrorsFrom(t, i, acc, kids) == ErrorsFrom(t, 0, Seed(t), t.kids)
    {
      var k := t.keys[i];
      if k in t.kids {
        var ce, ck := ErrorsOf(t.kids[k]);
        if ce.Some? {
          var merged := MergeChild(acc.GetOr(map[]), k, ce.value);
          acc := Some(merged);
        }
        kids := kids[k := ck];
      }
      i := i + 1;
    }
    r := acc;
    u := t.(summary := acc, kids := kids);
  }

  /**
   * The innermost loops of the `errors` getter: every record of a child's
   * summary `m`, copied with its key prefixed by `childKey`, is pushed onto
   * the list of its name in `acc`, which is created when absent.
   */
  method MergeChild(acc: ErrorMap, childKey: string, m: ErrorMap) returns (r: ErrorMap)
    ensures r == Merge(acc, childKey, m)
  {
    r := acc;
    var todo := m.Keys;
    while todo != {}
      invariant todo <= m.Keys
      invariant forall x :: MergedSoFar(r, acc, childKey, m, todo, x)
      decreases todo
    {
      var n :| n in todo;
      var named := m[n];
      var existing := AppendRewritten(if n in r then r[n] else [], childKey, named);
      ghost var before := r;
      if n in r || named != [] {
        r := r[n := existing];
      }
      forall x ensures MergedSoFar(r, acc, childKey, m, todo - {n}, x) {
        assert MergedSoFar(before, acc, childKey, m, todo, x);
      }
      todo := todo - {n};
    }
    forall x ensures x in r <==> x in Merge(acc, childKey, m)
      ensures x in r ==> r[x] == Merge(acc, childKey, m)[x]
    {
      assert MergedSoFar(r, acc, childKey, m, {}, x);
      MergeAt(acc, childKey, m, x);
    }
  }

  /** Name `x` of `r` is what merging the names of `m` outside `todo` into `acc` gives. */
  predicate MergedSoFar(r: ErrorMap, acc: ErrorMap, childKey: string, m: ErrorMap, todo: set<string>, x: string) {
    && (x in r <==> x in acc || (x in m && x !in todo && m[x] != []))
    && (x in r ==> r[x] == (if x in acc then acc[x] else []) + (if x in m && x !in todo then RewriteAll(childKey, m[x]) else []))
  }

  /** The loop over one name's records: each is copied, re-keyed and pushed onto `existing`. */
  method AppendRewritten(existing: seq<ErrorRecord>, childKey: string, named: seq<ErrorRecord>) returns (r: seq<ErrorRecord>)
    ensures r == existing + RewriteAll(childKey, named)
  {
    r := existing;
    var ii := 0;
    while ii < |named|
      invariant 0 <= ii <= |named|
      invariant r == existing + RewriteAll(childKey, named[..ii])
    {
      ResultTreeFacts.RewriteAllSnoc(childKey, named[..ii], named[ii]);
      assert named[..ii + 1] == named[..ii] + [named[ii]];
      r := r + [Rewrite(childKey, named[ii])];
      ii := ii + 1;
    }
    assert named[..ii] == named;
  }

  /** Membership and value of one name in a merge. */
  lemma MergeAt(acc: ErrorMap, childKey: string, m: ErrorMap, x: string)
    ensures x in Merge(acc, childKey, m) <==> x in acc || (x in m && m[x] != [])
    ensures x in Merge(acc, childKey, m) ==>
      Merge(acc, childKey, m)[x] == (if x in acc then acc[x] else []) + (if x in m then RewriteAll(childKey, m[x]) else [])
  {
  }

  // ---------------------------------------------------------------------
  // Paths

  /** The shape invariant holds at every node. */
  lemma {:induction false} WfAt(t: Tree, p: Path)
    requires Wf(t) && At(t, p).Some?
    ensures Wf(At(t, p).value)
    decreases |p|
  {
    if p != [] {
      WfAt(t.kids[p[0]], p[1..]);
    }
  }

  /** Replacing a node by one of the same shape keeps the shape of the whole tree. */
  lemma {:induction false} WfPut(t: Tree, p: Path, u: Tree)
    requires Wf(t) && At(t, p).Some? && Wf(u)
    ensures Wf(Put(t, p, u))
    decreases |p|
  {
    if p != [] {
      WfPut(t.kids[p[0]], p[1..], u);
      var r := Put(t, p, u);
      assert r.kids.Keys == t.kids.Keys;
      forall k | k in r.kids ensures !IsReserved(k) && Wf(r.kids[k]) {
        if k != p[0] { assert r.kids[k] == t.kids[k]; }
      }
    }
  }

  /** The child at `key` of the node at `p` is the node at `p + [key]`. */
  lemma {:induction false} AtChild(t: Tree, p: Path, key: string)
    requires At(t, p).Some?
    ensures At(t, p + [key]) == if key in At(t, p).value.kids then Some(At(t, p).value.kids[key]) else None
    decreases |p|
  {
    if p == [] {
      assert p + [key] == [key];
    } else {
      assert (p + [key])[1..] == p[1..] + [key];
      AtChild(t.kids[p[0]], p[1..], key);
    }
  }

  /** Replacing a node leaves every node that is not on its path, or below it, as it was. */
  lemma {:induction false} PutElsewhere(t: Tree, p: Path, u: Tree, q: Path)
    requires At(t, p).Some?
    requires !(p <= q) && !(q <= p)
    ensures At(Put(t, p, u), q) == At(t, q)
    decreases |p|
  {
    assert p != [] && q != [];
    if q[0] != p[0] {
    } else {
      PutElsewhere(t.kids[p[0]], p[1..], u, q[1..]);
    }
  }

  /**
   * Replacing a node changes none of its ancestors' own errors, cache or
   * child keys: in particular a cached summary of an ancestor survives.
   */
  lemma {:induction false} PutKeepsAncestors(t: Tree, p: Path, u: Tree, q: Path)
    requires At(t, p).Some? && q < p
    ensures At(t, q).Some? && At(Put(t, p, u), q).Some?
    ensures var a, b := At(Put(t, p, u), q).value, At(t, q).value;
      a.errs == b.errs && a.summary == b.summary && a.keys == b.keys && a.kids.Keys == b.kids.Keys
    decreases |p|
  {
    if q != [] {
      PutKeepsAncestors(t.kids[p[0]], p[1..], u, q[1..]);
    }
  }
}
