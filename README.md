# Cancelable promises, modelled in Dafny

`src/index.js` defines `Cancelable`, a wrapper around a host `Promise` that can be
canceled. Every `Cancelable` has four fields:

- `canceled`: the flag.
- `children`: the cancelables passed to `all`/`race`, or `null`.
- `onCancel`: the hook the executor registered.
- `parent`: the cancelable that `then`/`catch` was called on, or `null`.

`cancel(cb)` does nothing on a canceled cancelable. Otherwise it walks up the `parent`
chain. At each step it does four things:

- It cancels every child, with the default callback, and drops the children.
- It marks the node canceled.
- It calls the node's hook with `cb`.
- On the root, it rejects the wrapped promise with a `CancelationError`.

The model keeps all `Cancelable` objects in one arena, the `seq<Node>` of
`CancelablePromise.Arena`. An object reference is a node's position in that sequence.
A `then`/`catch` result always comes after the node it chains on. An `all`/`race`
result always comes after its inputs. So in the arena, parent and children ids are
smaller than the node's own id. The model relies on this (`Graph.WellFormed`): it is
why the recursive cancelation terminates.

The model has these files:

- `values.dfy` models JavaScript values, the tag test `isCancelable`, the filter that
  `all`/`race` run over their inputs, and a promise settled at most once.
- `graph.dfy` models the node record and the arena's well-formedness. It also defines
  the semantic invariant `Consistent`:
  - a canceled node has no children;
  - a canceled node's parent is canceled;
  - a canceled root's promise is no longer pending.

  It also defines `Closure(ns, n)`: the nodes a cancelation of `n` reaches, which are `n`,
  its ancestors, and recursively the closures of all their children.
- `cancel.dfy` specifies `cancel` as pure functions over a `World` (the arena plus the
  log of hook calls), and proves what a cancelation does.
- `cancelable.dfy` holds the `Arena` class. Its methods update the arena in place, as
  the JavaScript methods update their objects. `Arena.Cancel` is the `while` loop of
  `cancel`, proved equal to the specification function `Cancelation.CancelFrom`.
- `scenarios.dfy` replays the behaviour checked by `__test__/promise-cancelable.test.js`
  on the model. It also proves that a hook shared by two ancestor chains runs twice.

`isCanceled` is the function `Arena.IsCanceled`, read directly from the node.

The constructor establishes `Consistent`, and every public operation keeps it except
one: a direct call of the public `setCanceled()` (src/index.js:213-215). That call
marks a node canceled without canceling its children or rejecting its root. The next
`cancel()` on that node is then a no-op. `Arena.SetCanceled` therefore promises nothing
about `Consistent`. The results about the closure (`CancelCancelsClosure`,
`CancelRejectsRoots`, `CancelRunsClosureHooks`) need consistency only of the nodes up to
the target, because a cancelation of `n` never reaches a later node. A `setCanceled()` on
a newer node does not affect them.

## Model

| member | source | states |
|---|---|---|
| `Values.SettleOnce` | src/index.js:36-37 | A pending promise takes the first outcome, and a settled one keeps its outcome. The result is never pending. |
| `Values.CancelableIds` | src/index.js:74-84 | The ids kept by the `all`/`race` loop are exactly the cancelable inputs. There are never more ids than inputs. |
| `Values.ChildrenOfNull` | src/index.js:79-83 | `children` stays `null` exactly when no input is cancelable. Otherwise the list is never empty. |
| `Values.CancelableIdsAppend` | src/index.js:79-80 | Pushing input by input gives the filter of the concatenated inputs: the filter distributes over `+`. |
| `Values.CancelableIdsCount` | src/index.js:74-84 | `children` holds one entry per cancelable input, so duplicates are kept. |
| `Values.CancelableIdsAt` | src/index.js:74-84 | Entry `k` of `children` is a cancelable input, and the entries appear in input order. |
| `Graph.Fresh` | src/index.js:20-23 | A new cancelable is not canceled, has no children, no hook and no parent, and its promise is pending. |
| `Graph.Closure` | src/index.js:161-187 | The closure of `n` contains `n` and only ids up to `n`. |
| `Graph.ClosureClosed` | src/index.js:164-185 | With every node, the closure holds that node's parent and all its children, which is everything the loop and the recursive child cancelations go on to. |
| `Graph.EvolvesTransitive` | src/index.js:161-187 | Successive cancelation steps compose into one allowed change of the arena. |
| `Graph.EvolvesKeepsWellFormed` | src/index.js:161-187 | Cancelation steps never add links, so the arena stays well-formed. |
| `Graph.ClosureShrinks` | src/index.js:172 | After nodes have been canceled and their children dropped, the closure of a node is a subset of what it was. |
| `Graph.ConsistentUpdate` | src/index.js:49 | Changing a node's hook or promise, without touching `canceled` or `parent`, keeps the arena consistent. |
| `Graph.ConsistentAppend` | src/index.js:20-23 | Appending a node that is not canceled keeps the arena consistent. |
| `Cancelation.HookCalls` | src/index.js:177-179 | A visit calls the hook with `cb` exactly when it is a function. There is at most one call. |
| `Cancelation.Visit` | src/index.js:175-183 | A visited node is canceled. Its promise is rejected with `CancelationError` only if it is a root and still pending. No other node changes. |
| `Cancelation.CancelFrom` | src/index.js:154-188 | A cancelation leaves a well-formed arena and cancels the target. It does nothing on a node already canceled. It never touches a node after the target, and only appends hook calls made with `cb` or the default callback. |
| `Cancelation.Walk` | src/index.js:161-187 | The upward walk from `cur` cancels `cur`, changes only nodes up to `cur`, and only appends to the log. |
| `Cancelation.ChildrenDone` | src/index.js:164-173 | The children loop cancels every child and changes only nodes before the current one. Every call it logs uses the default callback. |
| `Cancelation.CancelChildren` | src/index.js:165-170 | Each child is canceled through its own `cancel()`, with the default callback. |
| `Cancelation.CancelFromConsistent` | src/index.js:154-188 | Canceling keeps the arena consistent up to the target, which covers every node it may change. |
| `Cancelation.CancelCancelsClosure` | src/index.js:154-188 | When the nodes up to `n` are consistent, after `cancel` every node of the closure is canceled and has no children, and the nodes up to `n` stay consistent. A fully consistent arena stays fully consistent. |
| `Cancelation.CancelRejectsRoots` | src/index.js:181-183 | When the nodes up to `n` are consistent, `_reject(new CancelationError())` reaches every root in the closure. A pending root promise becomes rejected with `CancelationError`, and an already settled one keeps its outcome. Every other promise is unchanged. |
| `Cancelation.CancelOnlyTouchesClosure` | src/index.js:154-188 | Nodes outside the closure are unchanged, and every hook call is made for a node in the closure. |
| `Cancelation.StartHookRunsOnce` | src/index.js:157-179 | The canceled node's own hook runs exactly once, with `cb`, when it is a function, and not at all otherwise. |
| `Cancelation.CancelRunsClosureHooks` | src/index.js:164-179 | When the nodes up to `n` are consistent, every node of the closure that was not canceled yet and has a function hook gets that hook run: the parent chain directly, and the children through their own `cancel()`. |
| `Cancelation.CancelHookArguments` | src/index.js:167-178 | Every function hook on the chain from `n` up is called with `cb`. Every other call uses the default callback or is made for a node on that chain. |
| `CancelablePromise.Resolved` | src/index.js:131-139 | `resolve` returns a cancelable argument unchanged. Any other value gets a new root node resolving to it. |
| `CancelablePromise.ResolveIdempotent` | src/index.js:131-134 | Resolving the result of `resolve` again changes nothing. |
| `CancelablePromise.Arena.constructor` | src/index.js:19 | The empty arena, before any `Cancelable` exists, is well-formed and consistent. |
| `CancelablePromise.Arena.New` | src/index.js:25-34 | A non-function executor gives `TypeError` and no new node. Otherwise there is a new root with default fields. Consistency is kept. |
| `CancelablePromise.Arena.RegisterHook` | src/index.js:48-50 | Only the node's `onCancel` changes, and the last registration wins. Consistency is kept. |
| `CancelablePromise.Arena.Settle` | src/index.js:36-59 | Only the node's promise changes, and only while it is pending. Consistency is kept. |
| `CancelablePromise.Arena.Resolve` | src/index.js:131-139 | The new arena and id are those of `Resolved`. |
| `CancelablePromise.Arena.Reject` | src/index.js:145-147 | A new root node adopting a rejected promise. |
| `CancelablePromise.Arena.CollectChildren` | src/index.js:74-84 | After the loop, the node's `children` is the filter of the inputs, and no other node changed. |
| `CancelablePromise.Arena.All` | src/index.js:71-87 | `all` creates one new node around `Promise.all(inputs)` whose children are the cancelable inputs in order. Consistency is kept. |
| `CancelablePromise.Arena.Race` | src/index.js:106-122 | The same as `All`, around `Promise.race(inputs)`. |
| `CancelablePromise.Arena.Then` | src/index.js:224-230 | `then` creates one new node whose parent is `this`, wrapping `this.promise.then(...)`. Consistency is kept. |
| `CancelablePromise.Arena.Catch` | src/index.js:197-203 | The same as `Then`, for `this.promise.catch(...)`. |
| `CancelablePromise.Arena.SetCanceled` | src/index.js:213-215 | Only the node's `canceled` flag changes, and it becomes true. |
| `CancelablePromise.Arena.Cancel` | src/index.js:154-188 | The loop's final state is `CancelFrom` of the old state. A consistent arena stays consistent. When the nodes up to `n` are consistent, the whole closure ends canceled with no children. |
| `CancelablePromise.Arena.ReleaseChildren` | src/index.js:164-173 | The children loop, then `children = null`, yields `ChildrenDone` of the old state with the node's children cleared. |
| `CancelablePromise.Arena.VisitNode` | src/index.js:175-183 | The three statements after the children block yield `Visit` of the old state. |
| `Scenarios.MixedInputsIds` | __test__/promise-cancelable.test.js:123-130 | From `[c1, 1, c2, 2, 3]`, `all`/`race` keep `[c1, c2]`. |
| `Scenarios.SharedAncestorHookRunsTwice` | src/index.js:157-179 | Suppose a node being canceled has exactly the children `[c1, c2]`, with `c1 < c2`, both not yet canceled and both with the same parent `a`, and `a` has a function hook. Then that hook is logged twice, because the `isCanceled` guard is checked only once, on entry. It does not hold in general: if `c2` is on `c1`'s parent chain, canceling `c1` cancels `c2` and the hook runs once. |
| `Scenarios.DiamondHookRunsTwice` | src/index.js:161-187 | In the concrete arena of a root with a hook, two `then`s of it and an `all` over both, canceling the `all` logs the root's hook twice. |

## Left out

- The host promise machinery is not modelled. This covers microtask scheduling, adopting thenables, and the values `Promise.all`/`race`/`then`/`catch` eventually settle with. Each is recorded only as an opaque `Native` description on the node's `origin`. Settlement is the `Arena.Settle` step, which the host triggers.
- Running the executor and the hooks is not modelled. A call to a hook is recorded in `log`, and the hook is assumed to return normally. A hook that throws would abort `cancel` halfway. A hook that cancels other cancelables re-entrantly is not modelled either.
- The tag `@@Cancelable` is reduced to the `Cancelable` constructor of `Value`. Plain objects that forge the tag, and the descriptor's `readable` typo, are not modelled.
- Error message strings and the `name` of `CancelationError` are not modelled. `TypeError` and `CancelationError` are constants.
- The `child = null` and `prev = null` assignments in `cancel` only help the garbage collector, so they are left out.
- The `isCancelable(child)` test inside the children loop always holds, because only cancelables are ever stored in `children`. The model iterates without it.
- `CancelablePromise.Arena.IsCanceled` has no contract: it only reads the flag.
- `Values.IsCancelable` has no contract. The tag is the `Cancelable` constructor of `Value`, so `isCancelable` (src/index.js:93-95) is that constructor's test, true by definition.
- `CancelablePromise.Arena.All` and `CancelablePromise.Arena.Race` take their inputs as a finite sequence that can be read twice. Two behaviours of other iterables are not modelled:
  - A non-iterable argument: `Promise.all`/`Promise.race` return a rejected promise without throwing, so the node is still created. Then the `for ... of` loop (src/index.js:74, 109) throws `TypeError`.
  - A one-shot iterator, such as a generator: `Promise.all`/`Promise.race` consume it first, so the loop sees nothing and `children` stays `null` even when cancelables were yielded.
- `Cancelation.CancelCancelsClosure`, `Cancelation.CancelRejectsRoots`, `Cancelation.CancelRunsClosureHooks` and the closure clause of `CancelablePromise.Arena.Cancel` say nothing when a node with an id up to `n` is inconsistent. That happens after a direct `setCanceled()` on such a node, even one outside the closure. In that case the source still cancels, rejects and runs hooks along whatever the walk reaches, but the model does not prove it.
- Nodes are never freed, so the arena only grows.
- Concurrency is not modelled: JavaScript runs `cancel` to completion on one thread.
