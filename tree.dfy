/**
 * The value view of a `ValidationResult` node (dist/amd/miruken-validate.js:23-120):
 * its own errors, its cached summary, its children in insertion order, and
 * the pure meaning of every operation on it. The heap class in module
 * Results is proved against these functions; the properties of the result
 * tree are lemmas here.
 */
module ResultTree {
  import opened Wrappers
  import opened Js

  /**
   * One error record: the message, the offending value and the dotted key of
   * the descendant it came from. The empty key stands for "no key" (an
   * absent or empty `key` is falsy and is treated the same way).
   */
  datatype ErrorRecord = ErrorRecord(message: string, value: Value, key: string)

  /** Error name (the failing constraint) to the ordered list of its records. */
  type ErrorMap = map<string, seq<ErrorRecord>>

  /**
   * A node: `errs` is the closure variable `_errors` (empty when undefined),
   * `summary` is `_summary`, `keys` lists the child property names in the
   * order they were added and `kids` holds the children.
   */
  datatype Tree = Tree(errs: ErrorMap, summary: Option<ErrorMap>, keys: seq<string>, kids: map<string, Tree>)

  /** A freshly constructed node. */
  const Empty: Tree := Tree(map[], None, [], map[])

  /** The member names that are behaviour, never children. */
  const IGNORE: seq<string> := ["valid", "errors", "addKey", "addError", "reset"]

  predicate IsReserved(key: string) {
    key in IGNORE
  }

  predicate Distinct(s: seq<string>) {
    forall i, j :: 0 <= i < j < |s| ==> s[i] != s[j]
  }

  /** Shape every reachable node has: keys enumerate the children once, no child is reserved, no error list is empty. */
  ghost predicate Wf(t: Tree)
    decreases t
  {
    && Distinct(t.keys)
    && (forall k :: k in t.kids <==> k in t.keys)
    && (forall n :: n in t.errs ==> t.errs[n] != [])
    && (forall k :: k in t.kids ==> !IsReserved(k) && Wf(t.kids[k]))
  }

  // ---------------------------------------------------------------------
  // Mutators

  /** `addKey(key)`: the existing child, or a new empty one appended. */
  function AddKey(t: Tree, key: string): Tree {
    if key in t.kids then t
    else t.(keys := t.keys + [key], kids := t.kids[key := Empty])
  }

  /** `addError(name, error)`: append to the list for `name` and drop the cache. */
  function AddError(t: Tree, name: string, e: ErrorRecord): Tree {
    var named := if name in t.errs then t.errs[name] else [];
    t.(errs := t.errs[name := named + [e]], summary := None)
  }

  // ---------------------------------------------------------------------
  // The `valid` getter

  /** `valid`: no own errors, no cached summary, and every child valid. */
  predicate IsValid(t: Tree)
    decreases t
  {
    t.errs == map[] && t.summary.None? && forall k :: k in t.kids ==> IsValid(t.kids[k])
  }

  // ---------------------------------------------------------------------
  // The `errors` getter

  /** The copy of a child's record as the parent reports it: key prefixed by the child's key. */
  function Rewrite(childKey: string, e: ErrorRecord): ErrorRecord {
    e.(key := if e.key != "" then childKey + "." + e.key else childKey)
  }

  function RewriteAll(childKey: string, es: seq<ErrorRecord>): (r: seq<ErrorRecord>)
    ensures |r| == |es|
  {
    if es == [] then [] else [Rewrite(childKey, es[0])] + RewriteAll(childKey, es[1..])
  }

  /** Append every record of a child's summary `m`, rewritten, after the entries already in `acc`. */
  function Merge(acc: ErrorMap, childKey: string, m: ErrorMap): ErrorMap {
    map n | n in acc.Keys + m.Keys && (n in acc || m[n] != []) ::
      (if n in acc then acc[n] else []) + (if n in m then RewriteAll(childKey, m[n]) else [])
  }

  /** The own errors that seed the summary (`_errors` copied, or nothing). */
  function Seed(t: Tree): Option<ErrorMap> {
    if t.errs != map[] then Some(t.errs) else None
  }

  /**
   * The `errors` getter: the cached summary when there is one; otherwise the
   * own lists followed by every child's `errors` (which fills the child's own
   * cache), and the result is cached. Returns the result and the new tree.
   */
  function Errors(t: Tree): (Option<ErrorMap>, Tree)
    decreases t, 1
  {
    if t.summary.Some? then (t.summary, t)
    else
      var (acc, kids) := ErrorsFrom(t, 0, Seed(t), t.kids);
      (acc, t.(summary := acc, kids := kids))
  }

  /** The getter's loop over the children from position `i` on. */
  function ErrorsFrom(t: Tree, i: nat, acc: Option<ErrorMap>, kids: map<string, Tree>): (Option<ErrorMap>, map<string, Tree>)
    decreases t, 0, |t.keys| - i
  {
    if i >= |t.keys| then (acc, kids)
    else
      var k := t.keys[i];
      if k in t.kids then
        var (ce, ck) := Errors(t.kids[k]);
        var acc' := if ce.Some? then Some(Merge(acc.GetOr(map[]), k, ce.value)) else acc;
        ErrorsFrom(t, i + 1, acc', kids[k := ck])
      else ErrorsFrom(t, i + 1, acc, kids)
  }

  /**
   * The `errors` getter as written throws on a host with no global `name`:
   * its merge loop assigns each error name to the undeclared `name`, which
   * strict mode rejects with a ReferenceError. The loop reaches that
   * assignment at the first child whose `errors` names at least one error;
   * a child whose own getter throws passes the error on. By then the node
   * has cached a partial summary, so later reads return it and the node is
   * no longer valid; only the throw is modelled here.
   */
  predicate ErrorsThrowsStrict(t: Tree)
    decreases t, 1
  {
    t.summary.None? && ErrorsFromThrowsStrict(t, 0)
  }

  /** The as-written getter's loop over the children from position `i` on throws. */
  predicate ErrorsFromThrowsStrict(t: Tree, i: nat)
    decreases t, 0, |t.keys| - i
  {
    if i >= |t.keys| then false
    else
      var k := t.keys[i];
      if k in t.kids && (ErrorsThrowsStrict(t.kids[k]) || NamesSome(Errors(t.kids[k]).0)) then true
      else ErrorsFromThrowsStrict(t, i + 1)
  }

  /** A summary that a `for ... in` loop visits at least one name of. */
  predicate NamesSome(o: Option<ErrorMap>) {
    o.Some? && o.value != map[]
  }

  /** Reference flattening that ignores every cache. */
  function Flat(t: Tree): Option<ErrorMap>
    decreases t, 1
  {
    FlatFrom(t, 0, Seed(t))
  }

  function FlatFrom(t: Tree, i: nat, acc: Option<ErrorMap>): Option<ErrorMap>
    decreases t, 0, |t.keys| - i
  {
    if i >= |t.keys| then acc
    else
      var k := t.keys[i];
      if k in t.kids then
        var ce := Flat(t.kids[k]);
        FlatFrom(t, i + 1, if ce.Some? then Some(Merge(acc.GetOr(map[]), k, ce.value)) else acc)
      else FlatFrom(t, i + 1, acc)
  }

  // ---------------------------------------------------------------------
  // Auxiliary predicates

  /** No node of the tree holds a cached summary. */
  predicate NoCache(t: Tree)
    decreases t
  {
    t.summary.None? && forall k :: k in t.kids ==> NoCache(t.kids[k])
  }

  /** Some node of the tree holds an error of its own. */
  predicate HasErrors(t: Tree)
    decreases t
  {
    t.errs != map[] || exists k :: k in t.kids && HasErrors(t.kids[k])
  }

  /** Two trees that differ at most in their cached summaries. */
  predicate SameData(t: Tree, u: Tree)
    decreases t
  {
    && t.errs == u.errs
    && t.keys == u.keys
    && t.kids.Keys == u.kids.Keys
    && forall k :: k in t.kids ==> SameData(t.kids[k], u.kids[k])
  }
}
