# dig container core in Dafny

This project models the bookkeeping core of `dig.go`, the dependency-injection container of the dig library. It covers:

- **Keys.** A key is a type tag plus a name or a group.
- **The container tree.** Each container holds providers, nodes, values, value groups and decorators, together with its parent and children links and its two acyclicity flags.
- **Registration.** `provide` adds a constructor node. `decorate` adds a decorator. `Validate` checks the options given to them.
- **Lookups.** Provider lookups run across a container's subtree. Decorator lookups search breadth-first for the key's owner and then walk up the parent chain.
- **Invocation.** `node.Call` runs a constructor at most once. Its outputs go through the staging writer and are committed in one go.
- **Shuffled groups.** Group values are handed out as a shuffled copy.

**How the tree is stored.** The tree is an arena: a `seq<Scope>` in which a container is an index, the root is index 0, and every parent index is smaller than its child's. `Containers.Tree` is the object that owns this sequence. Its methods change it in place, as the Go methods change a `Container`. The pure reads (`getRoot`, `getValueProviders`, the breadth-first search and the decorator walk) are functions on the sequence, with lemmas about them.

**Go map iteration.** Iteration over a Go map has no fixed order. The model picks keys with `:|`, so every proof holds for every order. Where a result depends on the order, a ghost out-parameter records the order that was taken.

**The oracles.** The reflective layer and the cycle detector are not modelled. They enter as inputs:

- Result and parameter plans are given as sequences of keys.
- A constructor is a function from its arguments to the writes it makes, or a failure.
- The per-key cycle check `verifyAcyclic(root, n, k)` is a `CycleCheck` oracle. It sees the tree as it stands at the check, plus the parameter list the decorator carries at that moment.
- The whole-graph check `Container.verifyAcyclic` is a `GraphCheck` oracle.
- `rand.Perm` is a permutation given as input.

**Behaviour of the code the model keeps.**

- **Presence versus emptiness.** Map *presence* is tracked apart from emptiness. `provide` and `decorate` restore an old provider list by assignment. A key that was absent is then present with an empty list. The code tests the two in different places, and the model follows each one:
  - `decorate`'s owner check (dig.go:777-787) and the breadth-first search of `getDecorators` (dig.go:427-437) test presence (`PresentAtOrBelow`, `BfsFind`).
  - `getValueProviders` and `getGroupProviders` (dig.go:395-422) concatenate the stored lists, so a present empty list adds nothing (`Providers`).
  - The result check of `provide` (dig.go:862-918) and `shallowCheckDependencies` (dig.go:1042-1063) test whether that concatenation is empty (`CheckKeys`, `MissingKeys`).
- **Rollback in `provide`.** On a cycle error, `provide` rolls back only the key that failed the check. Keys handled before it keep the new node, `nodes` is not appended, and `isVerifiedAcyclic` stays false.
- **Deferred verification.** When verification is deferred, `provide` leaves `isVerifiedAcyclic` false.
- **Parameters in `decorate`.** The parameters added for the cycle check accumulate from one output key to the next. They are used only when the decorator has inputs that are not also outputs.
- **Decorators on failure.** `decorate` keeps its decorator recorded under the output keys it handled before a failure.
- **Deferral flag.** A child container does not inherit `deferAcyclicVerification`.
- **Decorator owner.** When the breadth-first search finds no owner, the decorator walk starts at the container itself.

## Model

| member | source | states |
|---|---|---|
| Options.Validate | dig.go:68-89 | Validation passes exactly when a group is used without a name and without `As`, and neither the name nor the group contains a backquote. Name-with-group is reported exactly when both are set. Each other error is reported only when its own condition holds. |
| Types.Node.constructor | dig.go:954-984 | A new node has its plans, is not called, and has no committed run. |
| Scopes.Root | dig.go:451-457 | getRoot returns an ancestor of `c` that has no parent. |
| Scopes.RootUnique | dig.go:451-457 | Any ancestor without a parent is the one getRoot returns. |
| Scopes.RootIsZero | dig.go:451-457 | Every container of a tree has the same root, the container `New` created. |
| Scopes.InPreOrderIff | dig.go:395-403 | The pre-order listing of a subtree holds exactly the containers below `c`, `c` included. |
| Scopes.ProvidersInPreOrder | dig.go:395-422 | getValueProviders and getGroupProviders return the providers of `c`, then each child's result in child order. That is, the lists of the subtree concatenated in pre-order. |
| Scopes.ProvidersEmptyIff | dig.go:395-422 | The provider lookup is empty exactly when no container in the subtree has a provider for the key. |
| Scopes.Providers | dig.go:395-422 | A provider stored for the key in `c` itself makes the lookup non-empty. |
| Scopes.ProvidersOwnFirst | dig.go:395-422 | The lookup starts with `c`'s own list for the key, before any child's. |
| Scopes.BfsFind | dig.go:427-437 | A container the search returns has the key present. |
| Scopes.BfsFindSpec | dig.go:427-437 | The breadth-first search returns a container of the searched forest that has the key present. It finds nothing exactly when no container of the forest has the key present. |
| Scopes.BfsOrderIsLevelOrder | dig.go:427-437 | The search pops containers in level order: the queue, then all their children, then all the grandchildren, and so on. |
| Scopes.BfsFindFirstPopped | dig.go:427-437 | The search returns the first popped container that has the key present. |
| Scopes.BfsFindLevelOrder | dig.go:427-437 | The search returns the first container in level order that has the key present. |
| Scopes.SearchBelowSpec | dig.go:424-437 | Searching the children of `c` yields a strict descendant with the key present, the first one in breadth-first (level) order. The key is present in `c` or the search succeeds exactly when it is present somewhere in `c`'s subtree. |
| Scopes.Owner | dig.go:424-440 | The owner is a container of the tree, and it is `c` or has the key present. |
| Scopes.OwnerSpec | dig.go:424-440 | The owner of a key is `c` when `c` has it present. Otherwise it is the first descendant in breadth-first (level) order that has it present. When no container of the subtree has it present, it is `c` again. |
| Scopes.AncestorDecorators | dig.go:441-448 | The walk starts with `p`'s own decorators for the key, before any ancestor's. |
| Scopes.AncestorDecoratorsMembers | dig.go:441-448 | A decorator is in the walk from `p` upward exactly when some ancestor of `p` records it for the key. |
| Scopes.MissingKeys | dig.go:1042-1063 | At most one key is reported per parameter. |
| Scopes.MissingKeysSpec | dig.go:1042-1063 | A key is reported missing exactly when some required single parameter with that key has no provider in the subtree. Optional and group parameters are never reported. |
| Scopes.MissingKeysEmptyIff | dig.go:1042-1063 | The dependency check passes exactly when no parameter is missing. |
| Scopes.PresentWithoutProviders | dig.go:777-787 | A key present with an empty list passes decorate's presence check, yet its provider lookup is empty: presence and having a provider differ. |
| Scopes.AddChildWellFormed | dig.go:589-603 | Adding a child keeps the tree well formed, and the new container's parent is `c`. |
| Scopes.AddChildProviders | dig.go:589-603 | Adding a child changes no provider lookup in any existing container. |
| Registration.CheckKeys | dig.go:862-918 | The connection visitor fails only with a key produced twice or a key already provided. |
| Registration.CheckKeysSpec | dig.go:862-918 | The connection visitor succeeds exactly when every checked key is not yet among this node's keys, not repeated earlier in the plan, and without a provider below the root. On success it yields every produced key. |
| Registration.FindAndValidateResults | dig.go:661-680 | findAndValidateResults fails only with a key produced twice or a key already provided. On success it yields exactly the keys the result plan produces. |
| Registration.DuplicatePlainKeyRejected | dig.go:661-680 | A plain or named key that already has a provider anywhere in the tree makes findAndValidateResults fail, whichever container `provide` is called on. |
| Registration.GroupResultsNeverConflict | dig.go:889-895 | A plan made only of group results always passes the result check. |
| Registration.ProvideThenConflict | dig.go:617-680 | After a successful provide of a plan with a plain key, providing the same plan again in the same container fails. This holds for any new state that adds `n` under the result keys of `c` and changes only `c`'s data, so it covers the nodes and flag that `Tree.Provide` also updates. |
| Registration.CollectTagged | dig.go:698-752 | Collecting a decorator's fields fails only with a doubly tagged field or a repeated key. |
| Registration.CollectTaggedSpec | dig.go:698-752 | Collecting a decorator's fields succeeds exactly when no field carries both tags or repeats an earlier key. It then yields every field's key. |
| Registration.DecoratorKeys | dig.go:698-759 | Building the key sets fails only with a tagging error or an output key that is not an input. |
| Registration.DecoratorKeysSpec | dig.go:698-759 | The decorator's key sets are accepted exactly when both lists are well tagged and every output key is an input key. The accepted sets are the keys of the inputs and of the outputs. |
| Registration.RestoredProviders | dig.go:645-651 | Restoring old provider lists by assignment changes no provider lookup anywhere in the tree. |
| Registration.DecoratorReachesSubtree | dig.go:424-449 | A decorator recorded for a key in `c` is returned by getDecorators for that key from `c` and from every container below `c`. |
| Shuffle.PickRespectsMultiset | dig.go:1118-1124 | Picking items by two index lists with the same multiset yields two lists with the same multiset. |
| Shuffle.ShuffledCopy | dig.go:1118-1124 | The copy has position `i` taken from `perm[i]`. It has the length and the multiset of the items. |
| Containers.AddUnderKeys | dig.go:640-657 | The provide loop: on success the node is added under every key and the flag is set unless verification is deferred. On a cycle only the failing key is restored and the flag is false. Every key handled was checked in order. |
| Containers.SearchBelow | dig.go:427-437 | The breadth-first loop returns what the breadth-first search specifies, with its meaning. |
| Containers.DecorateOne | dig.go:776-814 | One round of decorate's loop. It reports NotFound exactly when the key is present in no container of the subtree. A key present with an empty list counts as present. A reported cycle means the oracle rejected the tree with the decorator spliced in front of the key's providers. Otherwise it records the decorator, with the provider list unchanged. |
| Containers.DecorateKeys | dig.go:776-816 | The decorate loop over the output keys. It stops at the first missing key or cycle, and keeps the work done on earlier keys. |
| Containers.ParamsOf | dig.go:766-775 | One parameter per input key that is not an output, grouped or single as the key says. It is non-empty exactly when such a key exists. |
| Containers.DecorateScope | dig.go:766-816 | However decorate ends, no provider list and no provider lookup changes, and the values, groups, nodes and deferral flag of `c` stay as they were. Each outcome is as DecorateOutcome states: the exact new tree (DecState) after the keys handled, the provider keys restored, and the acyclicity flag, on success, on a missing key and on a cycle alike. |
| Containers.Tree.constructor | dig.go:313-326 | New: a tree holding one empty, unverified root with the given deferral flag. |
| Containers.Tree.Child | dig.go:589-603 | Child: a new empty container, last among the children of `c`. No lookup of an existing container changes. |
| Containers.Tree.GetValue | dig.go:371-374 | getValue returns the value exactly when the plain key is present. |
| Containers.Tree.SetValue | dig.go:376-379 | setValue overwrites the value under the plain key and changes nothing else. getValue then returns it. |
| Containers.Tree.SubmitGroupedValue | dig.go:390-393 | submitGroupedValue appends to the end of the group's list and changes nothing else. |
| Containers.Tree.GetValueGroup | dig.go:381-388 | An absent group gives an empty list and false. Otherwise it gives true and a list with the stored list's length and multiset. |
| Containers.Tree.FindOwner | dig.go:424-440 | The owner of the key, as OwnerSpec describes it. |
| Containers.Tree.DecoratorsUpFrom | dig.go:441-448 | The decorators of the key from `p` up to the root, in that order. |
| Containers.Tree.GetDecorators | dig.go:424-449 | getDecorators returns the walk from the key's owner upward. |
| Containers.Tree.ShallowCheckDependencies | dig.go:1042-1063 | It reports the missing keys in parameter order, and reports none exactly when no parameter is missing. |
| Containers.Tree.VerifyAcyclic | dig.go:605-615 | On success the container is marked verified. On failure nothing changes. |
| Containers.Tree.Provide | dig.go:617-658 | A failed result check or an empty key set leaves the tree unchanged. On success `n` is under every key and in `nodes`, and the flag follows the deferral setting. A cycle rolls back only the failing key. |
| Containers.Tree.Decorate | dig.go:682-816 | Key-set errors leave the tree unchanged. Otherwise no provider list or lookup changes, nor the values, groups, nodes or deferral flag of `c`. On success `n` is appended to the decorators of every output key, each of which is present (possibly with an empty provider list) in `c` or below. A failure names the missing key or the cyclic key. Every outcome fixes the exact new tree, as DecorateOutcome states. |
| Containers.Tree.Invoke | dig.go:509-543 | Invoke works on the root. Missing dependencies stop it with the tree unchanged. An unverified root is checked once, and marked verified when it passes. |
| Invocation.StagedGroupsInOrder | dig.go:1086-1090 | The staged group of a key holds exactly the values submitted to it, first to last. It is present exactly when something was submitted. |
| Invocation.StagedValuesLastWins | dig.go:1082-1084 | A value is staged under a key exactly when some write set it. The staged value is the one the last such write set. |
| Invocation.MergeGroupsGet | dig.go:1092-1102 | After a commit every group holds its old elements followed by the staged ones. |
| Invocation.StagingWriter.constructor | dig.go:1075-1080 | A new staging writer is valid and holds no values and no groups. |
| Invocation.StagingWriter.SetValue | dig.go:1082-1084 | Overwrites the staged value under the plain key. Nothing else changes. |
| Invocation.StagingWriter.SubmitGroupedValue | dig.go:1086-1090 | Appends to the end of the staged group. Nothing else changes. |
| Invocation.StagingWriter.Receive | dig.go:1012-1014 | Replaying the constructor's writes into a fresh writer stages exactly StagedValues and StagedGroups. |
| Invocation.StagingWriter.Commit | dig.go:1092-1102 | Every staged value is set and every staged group element is appended in staged order. Nothing else in the tree changes, whatever the iteration order. |
| Invocation.Call | dig.go:993-1021 | A called node does nothing. Missing dependencies and a failed build change nothing. A constructor failure commits nothing and leaves the node uncalled. A node run while its arguments were built is not run again. Otherwise everything the constructor wrote is committed and the node is marked called. A run is only committed when none was before. |

## Left out

- **Reflection.** `newNode`, `newParamList`, `newResultList`, `BuildList`, `ExtractList` and `reflect.Value.Call` are not modelled. Their outputs are inputs here: result plans, parameter plans, decorator field lists (`DecoratorParam`), `BuildOutcome` and `CtorOutput`. The struct-tag walk of `decorate` (dig.go:699-752) is modelled on an already-extracted list of fields. The rule that skips embedded `In`/`Out` fields is part of that extraction.
- **`As` checks.** The pointer-to-interface checks in `Validate` (dig.go:91-106) are reflection. Only the number of `As` targets is modelled.
- **Cycle detection.** `detectCycles` and the free function `verifyAcyclic` are not part of this model. They are the `CycleCheck` and `GraphCheck` oracles. The model does capture how their results drive rollback and the `isVerifiedAcyclic` flag.
- **Decorator parameter swap.** `decorate` temporarily assigns the accumulated parameter list to `n.paramList.Params`. In the model that list is passed to the cycle oracle instead, and the decorator's own parameter list is not tracked. When the check fails (dig.go:806-808), the Go code does not restore the old list. The decorator stays recorded in `c.decorators` under the output keys handled before the failure (dig.go:813), so `getDecorators` still returns it, carrying the swapped list, and any later use of that list sees the extra parameters. The model does not capture that.
- **Nested builds.** `BuildList` may run other nodes' `Call`, and the writes those nested calls make are not modelled. Only their one observable effect on this node is: `called` turning true, given as `Built(_, true)`.
- **Invoke's final call.** The final reflective call in `Invoke` and the inspection of its error result (dig.go:545-554) are left out. `Invoke` is modelled up to building the arguments.
- **Randomness and time.** `math/rand` seeding, `time.Now` (dig.go:319) and `setRand` are left out. The permutation `rand.Perm` would return is an input.
- **Diagnostics.** `knownTypes` and `byTypeName` (dig.go:352-369, 1104-1116) only feed error messages and are left out. So are error structs and message text, `digreflect.InspectFunc`, `dot` identifiers, and the option-function plumbing (`Name`, `Group`, `As`, `DeferAcyclicVerification` as option values).
- **Containers.Tree.Invoke:** parameter lists reach it already built. The check that the argument is a function (dig.go:511-516) is reflection and is left out.
- **Containers.Tree.Child:** the container name and the shared `rand` source are not modelled.
- **Invocation.Call:** `called` turning true during the argument build is taken from `BuildOutcome` rather than from running the nested calls. The contract therefore says only what happens to this node and this tree in that case.
