# miruken-validate: the validation core in Dafny

This project models the validation orchestration of miruken-validate and
proves properties of it:

- the `ValidationResult` tree of errors;
- the `Validation` request;
- the bridge to validate.js (`ValidateJsCallbackHandler.$validate`,
  `_buildConstraints`, `_mapResults`, `_validateNestedAsync`);
- the validator table (`$registerValidators`, the `customValidator` member
  hook, forwarding validators, the `$validateThat` macro and decorator);
- the constraint builders of the System bundle;
- the `ValidationCallbackHandler` facade (`validate`, `validateAsync`,
  `_validateThat`, `_bindValidationResults`, `$valid`, `$validAsync`).

Modules, one file each:

| file | module | what it holds |
|---|---|---|
| wrappers.dfy | Wrappers | `Option` and `Result` |
| js.dfy | Js | JavaScript values, truthiness, `$isNothing`, `$isPromise`, `$isFunction`, decimal digits |
| tree.dfy | ResultTree | the value of a result node: own errors, cached summary, ordered children; `valid`, `errors` and their specifications |
| tree_facts.dfy | ResultTreeFacts | lemmas about the result tree |
| results.dfy | Results | class `ValidationResult`: one object per result tree, nodes named by paths, the node operations as methods with loops |
| validation.dfy | Validations | class `Validation` and its pending promise list |
| constraints.dfy | Constraints | the `constraint` decorator and the builders |
| registry.dfy | Registry | class `ValidatorRegistry` (`validatejs.validators` and the renaming counter) and the functions that specify it |
| engine.dfy | Engine | a validation as a function from the state before to the outcome and the state after |
| engine_facts.dfy | EngineFacts | lemmas about a validation |
| handler.dfy | Handlers | class `ValidationCallbackHandler`: the imperative facade and bridge, each method proved equal to its function in Engine |

The code outside the core is a parameter (`Engine.Env`):

- validate.js's evaluation, synchronous and asynchronous;
- calling a `validateThat*` member of the validated object;
- how a promise a member returned settles.

A nested `validator.validate(child, scope, results.addKey(key))` calls
back into the model's own `validate`. The handler chain is therefore
`ValidationCallbackHandler` followed by `ValidateJsCallbackHandler`.

A node that the source passes around by reference (the value `addKey`
returns) is named by its path from the root of the result object that
holds it (`Results.Handle`). The memoised `errors` summary is modelled as
it is: only a node's own `addError` and `reset` clear its cache, so a
parent's cached `errors` or `valid` can be stale after a child changes.
The validity and flattening properties are stated for nodes without
caches.

The source ships the same code three times: the ES sources under src/, an
AMD bundle and a System bundle. The model follows src/ for the bridge and
the facade, and the AMD bundle for `ValidationResult`, `Validation` and
`$validateThat`. It follows the System bundle for the builders, the
`customValidator` hook and the `validateThat` decorator. The System
bundle's forwarding validator also checks that the resolved validator has
a `validate` method. That check is the flag `checksValidate`.
The `errors` getter is modelled with the variable of its merge loop
declared; the getter as written is `ResultTree.ErrorsThrowsStrict` (see
Findings).

## Model

| member | source | states |
|---|---|---|
| ResultTreeFacts.AddKeyWellFormed | dist/amd/miruken-validate.js:83-85 | `addKey(k)` of a non-reserved key yields a child `k`. A second call returns the same child and changes nothing. A new child is empty and listed last. The tree stays well formed. |
| Results.ValidationResult.AddKey | dist/amd/miruken-validate.js:83-85 | For a reserved key it creates no node. Otherwise it returns the path of child `key` and the tree becomes `AddKey` at that node. |
| ResultTreeFacts.AddErrorEffects | dist/amd/miruken-validate.js:86-96 | `addError(name, e)` appends `e` to the list for `name`, creating it if absent. It leaves every other list and all children unchanged and drops the cache. Afterwards the node is not valid. |
| Results.ValidationResult.AddError | dist/amd/miruken-validate.js:86-96 | It returns the same node and applies `AddError` at that node, nowhere else. |
| ResultTreeFacts.ResetIsValid | dist/amd/miruken-validate.js:97-111 | A reset node is valid, has no cache and has no errors. |
| Results.ValidationResult.Reset | dist/amd/miruken-validate.js:97-111 | It returns the same node and replaces it by an empty node, dropping its errors, cache and children. |
| Results.ValidationResult.constructor | dist/amd/miruken-validate.js:24-27 | A new result is one empty node. |
| ResultTreeFacts.ValidIffNoErrors | dist/amd/miruken-validate.js:28-44 | With no cache anywhere, `valid` holds exactly when no node of the tree has an own error. |
| ResultTreeFacts.CachedSummaryIsInvalid | dist/amd/miruken-validate.js:29-31 | A node with a cached summary is not valid. |
| Results.ValidOf | dist/amd/miruken-validate.js:28-44 | The loop over the children returns `IsValid` of the node. |
| Results.ValidationResult.IsValid | dist/amd/miruken-validate.js:28-44 | `valid` of the node at the path. |
| ResultTreeFacts.ErrorsAgreesWithFlat | dist/amd/miruken-validate.js:46-81 | Without caches, `errors` returns the flattening of the tree: own lists copied, then each child's errors under their names, keys rewritten. |
| ResultTreeFacts.FlatAbsentIff | dist/amd/miruken-validate.js:46-81 | The flattening is absent exactly when no node of the tree has an error. |
| ResultTreeFacts.OwnErrorsFirst | dist/amd/miruken-validate.js:50-55 | The node's own list for a name is a prefix of the summary's list for that name. |
| ResultTreeFacts.FlatMembers | dist/amd/miruken-validate.js:46-81 | A record is in the flattening under `n` exactly when it is an own error `n`, or a child's error `n` with its key rewritten. |
| ResultTreeFacts.MergeMembers | dist/amd/miruken-validate.js:62-78 | Merging a child's summary adds exactly the child's records, key-rewritten, and keeps every record already there. |
| ResultTreeFacts.RewriteAllMembers | dist/amd/miruken-validate.js:69-71 | A merged child record is a copy whose key is `childKey.key`, or `childKey` when it had no key. |
| ResultTreeFacts.ErrorsOnlyFillsCaches | dist/amd/miruken-validate.js:46-81 | Reading `errors` changes no node's errors, keys or children, only caches, so a child's stored records are never altered. |
| ResultTreeFacts.ErrorsIdempotent | dist/amd/miruken-validate.js:47-49 | A second read of `errors` returns the same summary and changes nothing: the summary is memoised. |
| ResultTreeFacts.AbsentLeavesTreeUnchanged | dist/amd/miruken-validate.js:46-81 | When `errors` is absent, reading it leaves the whole tree as it was. |
| ResultTreeFacts.ErrorsKeepWf | dist/amd/miruken-validate.js:46-81 | Reading `errors` keeps the tree well formed. |
| ResultTreeFacts.HasErrorsReportsRecord | dist/amd/miruken-validate.js:46-81 | A well-formed tree with an error at some node reports at least one record in its flattening. |
| ResultTreeFacts.ChildNamesSomeIff | dist/amd/miruken-validate.js:63-66 | Without caches, a child's `errors` names at least one error exactly when some node of the child's subtree has an error. |
| ResultTreeFacts.StrictErrorsThrowsIff | dist/amd/miruken-validate.js:64-66 | As written, on a strict host without a global `name`, reading `errors` of a cache-free node throws exactly when some child subtree holds an error. |
| ResultTreeFacts.StrictErrorsThrowsOnNestedError | dist/amd/miruken-validate.js:64-66 | As written, a root whose only child holds one error cannot have its `errors` read on such a host. |
| Results.ValidationResult.Errors | dist/amd/miruken-validate.js:46-81 | It returns `Errors` of the node at the path and stores that node with its caches filled. |
| Results.ErrorsOf | dist/amd/miruken-validate.js:46-81 | The loops over own errors and children compute `Errors` of the node, summary and updated caches. |
| Results.MergeChild | dist/amd/miruken-validate.js:64-78 | The loop over a child's error names computes `Merge`. |
| Results.AppendRewritten | dist/amd/miruken-validate.js:67-77 | The loop over one name's records appends their rewritten copies in order. |
| Results.MergeAt | dist/amd/miruken-validate.js:62-79 | After a merge a name is present exactly when it was before or the child has records for it. Its list is the old list followed by the rewritten child records. |
| Validations.Validation.constructor | dist/amd/miruken-validate.js:125-148 | The new request keeps its object and scope, and `isAsync` is `!!async`. `results` is the given node, or a fresh empty result. No promises are pending. |
| Validations.Validation.AddAsyncResult | dist/amd/miruken-validate.js:149-153 | Only a promise is appended. The list is created by the first promise. |
| Validations.Collect | dist/amd/miruken-validate.js:149-153 | A value that is not a promise leaves the list as it was. A promise is appended, to an empty list when there was none. |
| Validations.CollectAllKeepsPromises | dist/amd/miruken-validate.js:149-153 | After a sequence of offers, the list is absent exactly when no promise was offered. Otherwise it holds exactly the promises offered, in order. |
| Registry.ValidateThatName | dist/amd/miruken-validate.js:205-207 | The new name is `validateThat` followed by the entry's name with its first letter upper-cased (ASCII letters only). |
| Registry.ValidateThatMembersArePrefixed | dist/amd/miruken-validate.js:183-208 | Every member the macro installs starts with `validateThat`, so the sweep finds it. Each entry that is a function, or an array ending in one, is installed. |
| Registry.ExpandValidateThat | dist/amd/miruken-validate.js:177-214 | The loop over the entries builds `ValidateThatMembers` of the definition. |
| Registry.Prepare | src/validate-js.js:50-68 | An entry registers a validator exactly when it is a function or an array whose last element is one. Earlier elements become dependencies, and a one-element array is the plain function. |
| Registry.Initial | src/validate-js.js:29 | The table starts with validate.js's own validators and `nested`. |
| Registry.RegisterEffect | src/validate-js.js:47-71 | Registration puts each function entry under its own name, replacing what was there. Every other name keeps its validator. |
| Registry.ValidatorRegistry.RegisterValidators | src/validate-js.js:46-72 | At Subclass and Implement the loop gives `Register` of the definition's keys. At Extend nothing changes. |
| Registry.ValidatorRegistry.constructor | dist/system/miruken-validate.js:407-408 | The table starts at `Initial()` and the counter at 0. |
| Registry.CustomRegister | dist/system/miruken-validate.js:56-90 | As written: non-enumerable members, `constructor` and non-functions are skipped. A name already in the table is replaced by `key-counter`, which is not checked, and the counter moves on. |
| Registry.CustomRegisterKeepsOthers | dist/system/miruken-validate.js:86-89 | The validator under the member's own name, and under every name other than the one registered, is kept. |
| Registry.CustomRegisterOverwrites | dist/system/miruken-validate.js:86-89 | With `v` and `v-0` registered and the counter at 0, a member `v` replaces the validator `v-0`. |
| Registry.FreshCounter | dist/system/miruken-validate.js:86-88 | The first counter from `c` on whose renamed name is free. Every value skipped names a registered validator. |
| Registry.FindFreeCounter | dist/system/miruken-validate.js:86-88 | The corrected search loop for a free renamed name returns `FreshCounter`. |
| Registry.CustomRegisterFresh | dist/system/miruken-validate.js:56-90 | Corrected hook: the same skips. The name it registers is never in the table already, so every registered validator is kept. |
| Registry.ValidatorRegistry.CustomValidatorMethod | dist/system/miruken-validate.js:56-90 | With the renaming corrected: the new table, counter and name are `CustomRegisterFresh` of the old ones. |
| Registry.Forward | dist/system/miruken-validate.js:153-163 | A forwarding validator hands the call on exactly when something resolves and has a `validate` function. It fails with "Unable to resolve validator '<name>'." when nothing resolves. A resolved validator without `validate` fails with "Validator '<name>' is missing 'validate' method." in the System bundle, and with the host's TypeError in the other forwarder. |
| Registry.ForwardVariantsAgree | src/validate-js.js:220-226 | The unchecked forwarder of src/ and the checked one of the System bundle hand on exactly the same calls. Their results differ exactly when the resolved validator has no `validate`, and then only in the error message. |
| Registry.DecorateValidateThat | dist/system/miruken-validate.js:207-213 | The `validateThat` decorator records a member exactly when its name is neither empty nor `constructor`, its value is a function, and the class carries metadata. |
| Constraints.Declare | dist/system/miruken-validate.js:330-343 | `constraint(c)` records `c` for the key exactly when the key is not `constructor`, the member has a getter, value or initializer, and the class carries metadata. |
| Constraints.SpecOf | dist/system/miruken-validate.js:425-522 | Each builder records one fixed spec naming its validator with its options. `matches` with truthy flags also records a `flags` entry. |
| Constraints.LengthSpecs | dist/system/miruken-validate.js:431-441 | `length.is/atLeast/atMost(n)` record `{length: {is/minimum/maximum: n}}`. |
| Constraints.MatchesSpecs | dist/system/miruken-validate.js:447-453 | `matches(p, f)` records `{format: p}`, plus `flags: f` only when `f` is truthy. |
| Constraints.MembershipSpecs | dist/system/miruken-validate.js:459-467 | `includes(m)` records `{inclusion: m}`; `excludes(m)` records `{exclusion: m}`. |
| Constraints.NumberSpecs | dist/system/miruken-validate.js:471-499 | `number`, `number.greaterThan(v)` and `number.odd` record their `numericality` options. |
| Constraints.UrlSpecs | dist/system/miruken-validate.js:509-520 | `url` records `{url: true}`; `url.schemes(s)` records `{url: {schemes: s}}`. |
| Constraints.PresenceSpecs | dist/system/miruken-validate.js:503 | `required` records `{presence: true}`, and `applyConstraints` (line 349) records `{nested: true}`. |
| Constraints.BuildersNameStandardValidators | dist/system/miruken-validate.js:425-522 | Every builder names a validator of validate.js, except `applyConstraints`, which names `nested`. |
| Constraints.MatchesWithFlagsNamesUnknownValidator | dist/system/miruken-validate.js:447-453 | As written, `matches` with truthy flags records the constraint name `flags`, which validate.js does not have. |
| Constraints.MatchesIntended | dist/system/miruken-validate.js:447-453 | Corrected `matches`: only `format`, with the flags inside its options. |
| Constraints.MatchesIntendedNamesOnlyFormat | dist/system/miruken-validate.js:447-453 | The corrected `matches` names only validators validate.js has. |
| Engine.AddForwarders | src/validate-js.js:219-227 | Every name of the spec other than `nested` is in the new table. A name already there keeps its validator, and each added one is a forwarder for itself. |
| Engine.Assign | src/validate-js.js:217 | `nested[key] = child` makes `(key, child)` an entry, keeps entries of other keys and adds nothing else. |
| EngineFacts.BuildConstraintsEffects | src/validate-js.js:204-232 | The constraint map is absent exactly when the target declares nothing. Otherwise it has one entry per declared key, holding the last spec declared for it. Every existing registration is kept. Exactly the non-`nested` names absent from the table gain forwarders (names inherited from `Object.prototype` aside, see Left out). `nested` holds exactly the declared-nested properties with truthy values. |
| EngineFacts.BuildFromConstraints | src/validate-js.js:209-212 | Each declared key maps to the last spec declared for it, and nothing else is added. |
| EngineFacts.BuildFromTable | src/validate-js.js:219-227 | Registrations are kept. Added names are forwarders for names some declaration uses, and every such name is in the table. |
| EngineFacts.BuildFromNested | src/validate-js.js:213-218 | A property is put in `nested` only when its spec names `nested` and its value is truthy, and every such property is put there. |
| EngineFacts.BuildConstraintsGrows | src/validate-js.js:219-227 | Building constraints never removes or replaces a registered validator. |
| Engine.Elements | src/validate-js.js:160-163 | An array child at `k` yields one target per element, keyed `k.0`, `k.1`, … in order. |
| EngineFacts.TargetsCount | src/validate-js.js:158-167 | There is one nested validation per array element and per non-array child. |
| EngineFacts.TargetsCover | src/validate-js.js:158-167 | Every non-array child is validated under `k`, and element `i` of an array child under `k.i`. |
| EngineFacts.TargetsOnly | src/validate-js.js:158-167 | Every nested validation is of a child under `k`, or of an array element under `k.i`. |
| EngineFacts.MapResultsOk | src/validate-js.js:193-202 | `_mapResults` succeeds exactly when no failed check names a reserved attribute. |
| EngineFacts.MapResultsAppends | src/validate-js.js:193-202 | At child `a`, the list `n` gains exactly the records `{message, value}` of the checks validator `n` failed on attribute `a`, in order. |
| EngineFacts.MapResultsApart | src/validate-js.js:193-202 | `_mapResults` changes no node outside the results node and its descendants. |
| Engine.All | src/validate-js.js:190 | `Promise.all` fulfils exactly when every promise fulfils. Otherwise it rejects with one of the rejections. |
| Engine.ValidateNestedAsync | src/validate-js.js:174-191 | Unless a call throws, `_validateNestedAsync` starts exactly one validation per target. The outcomes it returns are those already pending followed by one per target. |
| EngineFacts.AsyncErrorPassedOn | src/validate-js.js:148-151 | When evaluation rejects with an `Error`, the handler rejects with it. It merges no errors and binds nothing. |
| EngineFacts.FlatErrorsLast | src/validate-js.js:157-168 | On the synchronous path, the evaluator's failed checks are appended after whatever the nested validations recorded. |
| EngineFacts.AsyncFlatErrorsLast | src/validate-js.js:146-155 | In asynchronous mode, when evaluation rejects with a list of failed checks and the handler fulfils, the nested children have been validated first: every list at `p.a` ends with the records of the failed checks on `a`. |
| EngineFacts.MissingObjectRejected | src/validate.js:58-72 | `validate` and `validateAsync` of null or undefined throw "Missing object to validate." and change nothing. |
| EngineFacts.SuccessBindsResults | src/validate.js:62-84 | After a successful validation the object's `$validation` refers to the results node. |
| EngineFacts.SweepSkipsOthers | src/validate.js:89-90 | Keys that do not start with `validateThat` are skipped: the sweep does the same from after them. |
| EngineFacts.SweepCollectsPromises | src/validate.js:93-95 | The sweep only appends, and only promises. Without a collector it collects nothing. |
| EngineFacts.SweepApart | src/validate.js:87-98 | The sweep changes no node outside the results node and its descendants. |
| EngineFacts.AwaitAllApart | src/validate.js:80-82 | Awaiting the collected promises changes no node outside the results node and its descendants. |
| EngineFacts.ValidateKeeps | src/validate.js:58-68 | `validate` changes no node outside the results node and its descendants, and loses no registration. |
| EngineFacts.ValidateAsyncKeeps | src/validate.js:69-84 | The same for `validateAsync`. |
| EngineFacts.HandleSyncKeeps | src/validate-js.js:137-170 | The same for the synchronous handler. |
| EngineFacts.ValidateNestedKeeps | src/validate-js.js:158-167 | The same for the nested loop. |
| EngineFacts.HandleAsyncKeeps | src/validate-js.js:145-155 | The same for the asynchronous handler. |
| EngineFacts.CaughtKeeps | src/validate-js.js:148-155 | The same for the handler's `.catch`. |
| EngineFacts.ValidateNestedAsyncKeeps | src/validate-js.js:174-191 | The same for `_validateNestedAsync`. |
| EngineFacts.MatchesFlagsRegistersForwarder | dist/system/miruken-validate.js:447-453 | As written, a property declared with `matches(p, f)` and truthy `f` makes constraint building register a forwarding validator named `flags`. |
| EngineFacts.MatchesIntendedRegistersNothing | dist/system/miruken-validate.js:447-453 | With the corrected `matches`, constraint building registers nothing new. |
| Handlers.ValidationCallbackHandler.constructor | src/validate.js:57 | A new handler has bound no results. |
| Handlers.ValidationCallbackHandler.Validate | src/validate.js:58-68 | A missing object throws "Missing object to validate." and binds and registers nothing. Otherwise the results used are the caller's node, or a fresh result. The outcome and the new state are `Engine.Validate`. On success it returns the results used. |
| Handlers.ValidationCallbackHandler.ValidateAsync | src/validate.js:69-84 | A missing object throws at once. Otherwise the results used are the caller's node or a fresh result, and the outcome and new state are `Engine.ValidateAsync`. |
| Handlers.ValidationCallbackHandler.Valid | src/validate.js:110-113 | A present object is always validated (a result is used exactly when the object is not missing). `$valid` is `valid` of the fresh result that `validate` filled. |
| Handlers.ValidationCallbackHandler.ValidAsync | src/validate.js:115-119 | A present object is always validated (a result is used exactly when the object is not missing). `$validAsync` yields `valid` of that result once validation fulfils. |
| Handlers.ValidationCallbackHandler.ValidateAt | src/validate.js:58-68 | `validate` into a given node: the outcome and new state are `Engine.Validate`. |
| Handlers.ValidationCallbackHandler.ValidateAsyncAt | src/validate.js:69-84 | `validateAsync` into a given node: `Engine.ValidateAsync`. |
| Handlers.ValidationCallbackHandler.ValidateThat | src/validate.js:87-98 | The loop over the object's keys yields `Engine.Sweep`: outcome, collected promises and new tree. |
| Handlers.ValidationCallbackHandler.CallMember | src/validate.js:90-96 | Calling one `validateThat*` member yields `Engine.CallMember`. |
| Handlers.ValidationCallbackHandler.AwaitAll | src/validate.js:80-82 | The loop over the collected promises yields `Engine.AwaitAll`. |
| Handlers.ValidationCallbackHandler.HandleSync | src/validate-js.js:137-170 | The synchronous `$validate` handler yields `Engine.HandleSync`. |
| Handlers.ValidationCallbackHandler.ValidateNested | src/validate-js.js:158-167 | The loop over the nested targets yields `Engine.ValidateNested` from the first target. |
| Handlers.ValidationCallbackHandler.ValidateTarget | src/validate-js.js:159-166 | One nested validation is one step of `Engine.ValidateNested`: it throws, or leaves the rest of the loop to do. |
| Handlers.ValidationCallbackHandler.HandleAsync | src/validate-js.js:145-155 | The asynchronous `$validate` handler yields `Engine.HandleAsync`. |
| Handlers.ValidationCallbackHandler.Caught | src/validate-js.js:148-155 | The handler's `.catch` yields `Engine.Caught`. |
| Handlers.ValidationCallbackHandler.ValidateNestedAsync | src/validate-js.js:174-191 | The loop of `_validateNestedAsync` yields `Engine.ValidateNestedAsync` from the first target with nothing pending. |
| Handlers.ValidationCallbackHandler.ValidateTargetAsync | src/validate-js.js:177-188 | One started validation is one step of `Engine.ValidateNestedAsync`. |
| Handlers.ValidationCallbackHandler.MapResults | src/validate-js.js:193-202 | The loop over the failed checks yields `Engine.MapResults`. |
| Handlers.ValidationCallbackHandler.BuildConstraints | src/validate-js.js:204-232 | The loops over declarations and names yield `Engine.BuildConstraints`: constraints, nested children and new table. |
| Handlers.ValidationCallbackHandler.RegisterForwarders | src/validate-js.js:213-228 | The loop over one spec's names yields `AddForwarders`. |

## Left out

- The validate.js evaluator (what `presence`, `length`, `format` and the rest accept) is a parameter. Its synchronous result is a list of failed checks or the message of what it threw. Its asynchronous result is how its promise settles.
- The handler chain (`$composer`, `$handle`, `$define`, `$validate.dispatch`, protocol resolution) is not modelled. Validation runs the two handlers of the core in turn. Other `$validate` handlers, and the promises they hand to `addAsyncResult`, are left out.
- Dependency injection (`Invoking(...).invoke`, `$use`, `inject.get`) is left out. A validator with dependencies is recorded as `Injecting(dependencies, fn)`; calling it is not modelled.
- Promise scheduling, `composer.deferAll` and event-loop order are left out. Asynchronous work runs to completion in program order. `Promise.all` settles with the first rejection in list order, which need not be the first to happen in time.
- The `this.aspect` wrapping of `$valid` and `$validAsync` is not modelled. Only the projection onto `valid` is kept.
- `Object.defineProperty` is reduced to the map `bound` from object to results node. The `$validation` property's non-enumerable and non-writable flags are not modelled.
- The scope is passed through and never inspected.
- Metadata reflection (`$meta`, `metadata.get`, `getDescriptor`, decorator plumbing) is replaced by explicit lists. An object carries its declarations and its keys in `for ... in` order.
- Calling a `validateThat*` member is a parameter. It returns a value after reporting failed checks, or it throws.
- Registry.ValidatorRegistry.CustomValidatorMethod: models the hook with the collision renaming corrected (see Findings); `Registry.CustomRegister` is the hook as written.
- The two nested loops over `nested` and its arrays are modelled as one loop over the flattened target list `Engine.Targets`. `EngineFacts.TargetsCover` and `EngineFacts.TargetsOnly` tie that list to the loops.
- The ES build tooling (build/tasks/build.js) is not part of this model.
- Numbers are integers (no NaN or fractions). Only truthiness and identity matter to the core.
- src/validate-js.js:61 builds its message from an undefined variable. Only the fact that the dependency wrapper needs a composer matters, and that wrapper is not called in the model.
- Results.ValidationResult.AddKey: a key names a child unless it is one of the five reserved member names. The source's `this[key] ||` returns any truthy member the node already has, own or inherited: `toString`, `hasOwnProperty`, `valueOf`, the members of the Base class, and `valid` itself (`true` on a valid node). The model assumes attribute and nested keys never name such a member, and yields no node for the reserved names only.
- ResultTreeFacts.AddKeyWellFormed: promises a child for every non-reserved key, under the same assumption that the key names no inherited member of the node.
- EngineFacts.MapResultsOk: promises success whenever no attribute is reserved. An attribute naming an inherited member such as `toString` makes the source's `addKey(attribute).addError(...)` throw a TypeError, which the model does not capture.
- Engine.MapResults: a reserved attribute fails without touching the tree. For `errors` the source runs the getter first, which fills caches before the TypeError.
- Engine.ValidateNested: a reserved nested key fails with `NotANode`. In the source a key `valid` on a valid node hands `true` on as the child's results, and a key naming an inherited member hands on a function.
- Engine.ValidateNestedAsync: the same reserved-key simplification as `Engine.ValidateNested`.
- Engine.ValidateNested: objects are finite values, so a cyclic graph of nested objects (a child that refers back to a parent, both declared nested) cannot be built. On such a graph the source recurses until the stack overflows; the model's termination measure relies on finiteness.
- Engine.Validate: a plain data value (`Dict`) as target is bound to its results, but its fields are not swept for `validateThat*` members as the source's `for ... in` loop would; such a value carries data only. `Engine.ValidateAsync` does the same.
- Registry.ValidateThatName: upper-cases ASCII letters only. The Unicode case mappings of `toUpperCase` are not modelled: `éclair` keeps its first letter here. A mapping that changes length, such as `ß` to `SS`, would break the length clause, which holds for the ASCII mapping only.
- ResultTree.Errors: visits the children in insertion order. `Object.getOwnPropertyNames` lists integer-like keys such as `0` first, in ascending order, so with such keys the order of records in a summary list can differ. The membership lemmas (`ResultTreeFacts.FlatMembers`, `ResultTreeFacts.MergeMembers`) do not depend on that order.
- ResultTree.ErrorMap: error names are the keys of a `map`, so the order in which a summary object lists its names is not modelled.
- Results.ValidationResult.Errors: models the getter with the variable of its merge loop declared (see Findings); `ResultTree.ErrorsThrowsStrict` is the getter as written.
- Results.ValidationResult.Reset: nodes are named by their path from the root, so a node that an ancestor's `reset` detached cannot be reached any more. In the source the detached object stays usable by whoever holds it.
- Engine.AddForwarders: a name counts as known when it is a key of the table. The source tests `name in validatejs.validators`, which also sees the members a plain object inherits from `Object.prototype` (`constructor`, `toString`, `valueOf`, `hasOwnProperty` and the rest). For a spec naming one of these the source installs no forwarder and validate.js calls the inherited method as the validator; the model installs a forwarder. `EngineFacts.BuildConstraintsEffects` and `EngineFacts.BuildFromTable` inherit this.
- Engine.Validate: the `$validation` binding `bound` is keyed by value. Arrays and plain objects (`Arr`, `Dict`) carry no identity, so two equal ones, such as two empty plain objects declared nested, share one binding, and validating the second rebinds the first. In the source each object keeps its own `$validation`. `Engine.ValidateAsync` and `EngineFacts.SuccessBindsResults` inherit this; objects (`Obj`), functions and promises carry identities and are unaffected.

## Findings

| source | as written | input that shows it | evidently intended | confidence | as-written member | corrected member |
|---|---|---|---|---|---|---|
| dist/system/miruken-validate.js:447-453 | `matches(pattern, flags)` with truthy flags records `{format: pattern, flags: flags}`, so `flags` becomes a constraint name of its own | a property declared with `matches(/^a/, "i")`: building its constraints registers a forwarding validator named `flags`, which fails with "Unable to resolve validator 'flags'." unless some handler provides a validator of that name | the flags go to the `format` validator together with the pattern, `{format: {pattern, flags}}` | medium, not executed | EngineFacts.MatchesFlagsRegistersForwarder | EngineFacts.MatchesIntendedRegistersNothing |
| dist/system/miruken-validate.js:86-89 | on a collision the member is registered as `key-counter` without checking that name | validators `v` and `v-0` registered (for instance through `$registerValidators`), counter 0, then a `customValidator` member `v`: it is registered as `v-0` and replaces the validator already there | keep counting until `key-counter` is free, so no registered validator is replaced | low, not executed | Registry.CustomRegisterOverwrites | Registry.CustomRegisterFresh |
| dist/amd/miruken-validate.js:66 | the `errors` getter merges a child's summary with `for (name in errors)`, and `name` is declared nowhere in the strict-mode module; the line before it has already cached a partial summary (`_summary = _summary || {}`), so after the failed read every later read returns that cached summary and `valid` stays false | a result whose child `child` holds one `presence` error: on a host with no global `name`, reading the root's `errors` throws a ReferenceError (in a browser it assigns `window.name` instead) | the loop variable is declared, as `_name` is in the loop above it, and the getter returns the merged summary | medium, not executed | ResultTreeFacts.StrictErrorsThrowsIff | ResultTreeFacts.ErrorsAgreesWithFlat |
