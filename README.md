# ngx-lazy-el component loader, modelled in Dafny

This project models `ComponentLoaderService` of ngx-lazy-el. The service lazily loads Angular
custom elements by their selector (tag name). It keeps three tables:

- `componentsToLoad`: the declared selectors, each with its route (`loadChildren` callback);
- `loadedCmps`: the selectors whose load has finished;
- `elementsLoading`: the selectors with a load in flight, each with the one promise that all
  callers for that selector share.

`loadComponent(selector, createInstance)` picks one of four branches, in this order:

1. join the load in flight;
2. start a load of a declared selector;
3. answer at once for a loaded selector;
4. throw "Unrecognized component".

The callbacks of a load then move the selector to `loadedCmps` on success, or drop its
in-flight entry on failure. `loadContainedCustomElements` finds the declared and the loaded
selectors present under a root element and requests each of them.

Modules:

- `Results`: `Option` and `Result` (the `Err` side stands for a synchronous throw).
- `OrderedMaps`: the insertion-ordered ECMAScript `Map` (`set` appends a new key and keeps the
  place of an existing key; `delete` keeps the order of the others), and `Filter`
  (`Array.prototype.filter` with a membership test).
- `Loader`: the state as a value, with the invariant `Inv` and one pure function per transition:
  `Initial`, `RequestStep`, `SuccessStep` and `FailureStep`. Lemmas cover each branch.
- `Discovery`: `Discover` (the two filters, concatenated), `RequestEach` and `LoadContained`
  (the fan-out), and lemmas about order, membership and absence of errors.
- `Traces`: runs of requests interleaved with completions. Lemmas cover the invariant,
  deduplication (one loader call and one promise per selector while its load is in flight),
  no reload after a success, and no resolution of a failed load's promise.
- `Service`: the class `ComponentLoaderService`. Its fields are the three tables and two identity
  counters, and its methods update those fields in place. Each method is proved equal to the
  matching `Loader`/`Discovery` transition and keeps `Inv`.

Abstractions:

- Promises are `Ticket`s: identities drawn from a counter.
- A module reference, a loader callback and an element made by `document.createElement` are each
  an opaque `nat`. A new element is drawn from a counter, so each one is distinct.
- `element.querySelector(s)` becomes a set `present` of the selectors that match under the root.
- The asynchronous part of a load becomes one of two explicit completions: success or failure.
  Either one can happen only while the selector is in flight, because the callbacks that produce
  it belong to the promise chain created when the load started.

What the code does when a load fails:

- When a load fails after `loadChildren` has returned a promise (lines 140-148), the shared
  promise is never rejected. The `reject` parameter at line 89 is never called. The `catch`
  handlers return their rejection into chains that nobody holds. Callers waiting on such a load
  therefore never settle. `Traces.FailedHandleNeverResolved` states this: the promise of a failed
  load is never resolved. No rejection is modelled.
- A synchronous throw from `loadChildren` inside the executor is different: it does reject the
  shared promise, but leaves it stored as in flight (see "## Findings").

## Model

| member | source | states |
|---|---|---|
| `OrderedMaps.Filter` | libs/ngx-lazy-el/src/lib/component-loader.service.ts:49-56 | The result holds exactly the elements of the input that pass the test, as a subsequence of the input (so in the input's order), and without duplicates when the input has none. |
| `OrderedMaps.OrderedMap.Set` | libs/ngx-lazy-el/src/lib/component-loader.service.ts:36-40 | `Map.set`: the key maps to the new value and other keys keep their entries. A new key is appended to the iteration order; an existing key keeps its position. Well-formedness is preserved. |
| `OrderedMaps.OrderedMap.Delete` | libs/ngx-lazy-el/src/lib/component-loader.service.ts:137-138 | `Map.delete`: the key is gone, other keys keep their entries, and the remaining keys keep their relative order (a subsequence). Well-formedness is preserved. |
| `OrderedMaps.Empty` | libs/ngx-lazy-el/src/lib/component-loader.service.ts:22-23 | `new Map()` is well-formed and has no keys. |
| `Loader.Indexed` | libs/ngx-lazy-el/src/lib/component-loader.service.ts:36-39 | The map built by the constructor loop is well-formed, holds exactly the configured selectors, and files each route under its own selector. |
| `Loader.Initial` | libs/ngx-lazy-el/src/lib/component-loader.service.ts:21-40 | After construction: `componentsToLoad` holds exactly the configured selectors, `loadedCmps` and `elementsLoading` are empty, and `Inv` holds. |
| `Loader.IndexedLastWins` | libs/ngx-lazy-el/src/lib/component-loader.service.ts:37-39 | When several routes share a selector, the last one is the route filed under it. |
| `Loader.IndexedKeysGrow` | libs/ngx-lazy-el/src/lib/component-loader.service.ts:37-39 | Construction only appends keys: the keys built from any prefix of the routes are a prefix of the final keys. |
| `Loader.IndexedFirstOccurrence` | libs/ngx-lazy-el/src/lib/component-loader.service.ts:36-40 | A selector takes its place in the iteration order at its first route: right after every selector configured before that route. |
| `Loader.RequestStep` | libs/ngx-lazy-el/src/lib/component-loader.service.ts:80-166 | A request keeps `Inv` and never changes the declared or loaded tables. Every promise in flight stays in flight with the same identity. The only selector that can become in flight is the one requested. |
| `Loader.SuccessStep` | libs/ngx-lazy-el/src/lib/component-loader.service.ts:121-138 | A successful completion keeps `Inv`. Every other load in flight keeps its promise, and the promise and element counters are unchanged. |
| `Loader.FailureStep` | libs/ngx-lazy-el/src/lib/component-loader.service.ts:140-148 | A failed completion keeps `Inv` and removes only this selector from `elementsLoading`. Every other load in flight keeps its promise, the declared and loaded tables are unchanged, and so are the counters. |
| `Loader.SyncLoaderThrowAsWritten` | libs/ngx-lazy-el/src/lib/component-loader.service.ts:89-151 | The as-written state after `loadChildren` throws synchronously: no handler runs, so the in-flight entry stored at line 151 stays with its (rejected) promise. This is only a definition of the as-written path; what follows from it is stated by `Loader.SyncLoaderThrowPoisonsSelector`. |
| `Loader.JoinSharesHandle` | libs/ngx-lazy-el/src/lib/component-loader.service.ts:80-82 | A selector in flight gets its stored promise back whatever `createInstance` is, and nothing changes. |
| `Loader.StartRegistersHandle` | libs/ngx-lazy-el/src/lib/component-loader.service.ts:84-152 | A declared selector that is not in flight starts a load. The load calls its own configured loader and gets a promise distinct from every promise in flight. Exactly one entry is added to `elementsLoading`, the other tables are unchanged, and the next request for the selector joins the new promise. |
| `Loader.DeclaredBeforeLoaded` | libs/ngx-lazy-el/src/lib/component-loader.service.ts:84-153 | The declared branch is tested before the loaded one. A selector that is declared, loaded and not in flight starts a new load with its configured loader. |
| `Loader.LoadedAnswersDirectly` | libs/ngx-lazy-el/src/lib/component-loader.service.ts:153-162 | A loaded selector that is neither in flight nor declared is answered at once with an event for that selector. The event carries an element exactly when `createInstance` is true, and no table changes. |
| `Loader.FreshInstancePerCall` | libs/ngx-lazy-el/src/lib/component-loader.service.ts:155-161 | Two back-to-back requests with `createInstance` for a loaded selector return two different elements. `Traces.CreatedFresh` states this for any run. |
| `Loader.UnrecognizedMessage` | libs/ngx-lazy-el/src/lib/component-loader.service.ts:164-166 | The error text starts with `Unrecognized component "` and quotes the selector right after it. |
| `Loader.UnknownRaises` | libs/ngx-lazy-el/src/lib/component-loader.service.ts:163-166 | A selector in no table raises the "Unrecognized component" error with the source's message, and the state is unchanged. |
| `Loader.SuccessMovesToLoaded` | libs/ngx-lazy-el/src/lib/component-loader.service.ts:121-138 | Success resolves the stored promise with `{selector, componentInstance: null}`. The selector is then loaded (with its module reference), not declared, and not in flight. Every other selector keeps its membership in all three tables, its stored promise, its route and its module reference. |
| `Loader.FailureIsRetriable` | libs/ngx-lazy-el/src/lib/component-loader.service.ts:140-148 | Failure leaves the declared and loaded tables unchanged. The next request starts a fresh load with the same configured loader and a new promise. |
| `Loader.SyncLoaderThrowPoisonsSelector` | libs/ngx-lazy-el/src/lib/component-loader.service.ts:80-152 | As written, after `loadChildren` throws synchronously, the next request for the selector joins the rejected promise instead of starting a new load. Since the state is unchanged by that join, so does every request after it. |
| `Discovery.Discover` | libs/ngx-lazy-el/src/lib/component-loader.service.ts:49-60 | A selector is discovered exactly when it is present under the root and is a key of the declared or the loaded map. The declared keys come first, then the loaded keys, each in its map's insertion order (`Discovery.DiscoverFindsPresentKnown`, `Discovery.DiscoverDeclaredFirst`, `Discovery.DiscoverKeepsInsertionOrder`). |
| `Discovery.LoadContained` | libs/ngx-lazy-el/src/lib/component-loader.service.ts:46-66 | One request per discovered selector, in order, with `createInstance` false. It keeps `Inv`, leaves the declared and loaded tables unchanged, and gives one answer per discovered selector when nothing throws (`Discovery.LoadContainedAnswersAll` states the answers). |
| `Discovery.RequestEach` | libs/ngx-lazy-el/src/lib/component-loader.service.ts:63-65 | Requesting a list of selectors keeps `Inv`, leaves the declared and loaded tables unchanged, and answers each selector when nothing throws. |
| `Discovery.DiscoverFindsPresentKnown` | libs/ngx-lazy-el/src/lib/component-loader.service.ts:49-60 | A selector is discovered if and only if it is present under the root and is declared or loaded. No selector is discovered twice. |
| `Discovery.DiscoverSplits` | libs/ngx-lazy-el/src/lib/component-loader.service.ts:49-56 | The first filter returns only declared, unloaded selectors; the second returns only loaded, undeclared ones. |
| `Discovery.DiscoverDeclaredFirst` | libs/ngx-lazy-el/src/lib/component-loader.service.ts:49-60 | Every declared selector discovered comes before every loaded one. |
| `Discovery.DiscoverKeepsInsertionOrder` | libs/ngx-lazy-el/src/lib/component-loader.service.ts:49-60 | The declared selectors discovered follow the insertion order of `componentsToLoad`; the loaded ones follow that of `loadedCmps`. |
| `Discovery.KnownAnswered` | libs/ngx-lazy-el/src/lib/component-loader.service.ts:80-162 | A request without an element for a declared or loaded selector does not throw. A declared selector gets a load promise (joined or new); a loaded one gets `{selector, componentInstance: null}`. |
| `Discovery.RequestEachAnswersAll` | libs/ngx-lazy-el/src/lib/component-loader.service.ts:63-65 | Requests for selectors that are all declared or loaded never throw. A loaded selector gets `{selector, componentInstance: null}`, and a declared one gets a load promise (`Discovery.RequestEachTickets` says which). |
| `Discovery.RequestEachTickets` | libs/ngx-lazy-el/src/lib/component-loader.service.ts:63-65 | In a batch of requests for known selectors, every load already in flight keeps its promise, and a selector is in flight afterwards only if it was before or was requested. Each declared selector is answered with exactly the promise stored for it at the end of the batch. |
| `Discovery.LoadContainedAnswersAll` | libs/ngx-lazy-el/src/lib/component-loader.service.ts:46-66 | `loadContainedCustomElements` never throws. It answers each discovered selector in discovery order, without creating an element, and leaves the declared and loaded tables unchanged. Each declared selector found gets the promise of its own load, which is in flight afterwards, and two different selectors get two different promises. Loads already in flight keep their promises, and a load starts only for a selector that was found. |
| `Discovery.ExampleDiscovers` | libs/ngx-lazy-el/src/lib/component-loader.service.ts:49-60 | Worked example: with `a` and `b` declared, `c` loaded, and only `b` and `c` present, discovery returns `[b, c]`. |
| `Discovery.ExampleLoadsOnlyAbsentDeclared` | libs/ngx-lazy-el/src/lib/component-loader.service.ts:46-66 | In the same example, exactly one load starts (for `b`), and the answers are a new promise for `b` then `{c, null}`. |
| `Traces.CreatedFresh` | libs/ngx-lazy-el/src/lib/component-loader.service.ts:155-161 | `createInstance` gives a freshly made element on every call. Over any run, the elements handed out are new (none was handed out before the run) and strictly increasing, so no two calls get the same one. The element counter grows by exactly the number handed out. |
| `Traces.ApplyCreates` | libs/ngx-lazy-el/src/lib/component-loader.service.ts:155-161 | An event hands out at most one element, the next identity, and moves the counter past it. |
| `Traces.Apply` | libs/ngx-lazy-el/src/lib/component-loader.service.ts:80-166 | Every event (a request, a success, a failure) keeps `Inv`. |
| `Traces.RunKeepsInv` | libs/ngx-lazy-el/src/lib/component-loader.service.ts:84-151 | `Inv` holds after any run of events: every in-flight selector is declared, declared and loaded are disjoint, and promises are distinct. |
| `Traces.UndeclaredNeverStarts` | libs/ngx-lazy-el/src/lib/component-loader.service.ts:84-89 | A selector that is not declared never has its loader invoked in any later run. |
| `Traces.NeverLoadedAgain` | libs/ngx-lazy-el/src/lib/component-loader.service.ts:121-138 | After a success, the selector's loader is never invoked again, in any later run. |
| `Traces.InFlightOnlyJoins` | libs/ngx-lazy-el/src/lib/component-loader.service.ts:80-82 | While a load is in flight and does not settle, no request starts a second one. Every request for that selector gets exactly `Joined` of the stored promise, and at the end of the run the load is still in flight with that promise. |
| `Traces.StartThenJoins` | libs/ngx-lazy-el/src/lib/component-loader.service.ts:84-152 | After a request starts a load, and until that load settles, it is the only load started. The first request gets the new promise (`Started`), and every later request for the selector gets `Joined` of that same promise. The load is still in flight with it at the end. |
| `Traces.AtMostOneLoad` | libs/ngx-lazy-el/src/lib/component-loader.service.ts:80-152 | Deduplication: until a selector's load settles, its loader is invoked at most once, and all its requests share at most one promise. |
| `Traces.RequestedDeclaredStartsOnce` | libs/ngx-lazy-el/src/lib/component-loader.service.ts:84-152 | A declared selector that is not in flight, and is requested at least once before any load of it settles, has its loader invoked exactly once. |
| `Traces.RetiredHandleNeverResolved` | libs/ngx-lazy-el/src/lib/component-loader.service.ts:89-148 | A promise that was made but is no longer in flight is never resolved by any later event. |
| `Traces.FailedHandleNeverResolved` | libs/ngx-lazy-el/src/lib/component-loader.service.ts:140-148 | The promise of a failed load is never resolved afterwards; its waiters are not settled. |
| `Service.ComponentLoaderService.constructor` | libs/ngx-lazy-el/src/lib/component-loader.service.ts:25-41 | The `forEach` loop files every route under its selector, and a later route replaces an earlier one. The new object's state is `Loader.Initial` of the routes, and `Inv` holds. |
| `Service.ComponentLoaderService.LoadComponent` | libs/ngx-lazy-el/src/lib/component-loader.service.ts:76-168 | Updates the fields in place exactly as `Loader.RequestStep` describes, returns its answer, and keeps `Inv`. |
| `Service.ComponentLoaderService.CompleteSuccess` | libs/ngx-lazy-el/src/lib/component-loader.service.ts:121-138 | `set` on `loadedCmps`, then `delete` on `elementsLoading` and `componentsToLoad`, exactly as `Loader.SuccessStep` describes. Returns the resolved promise and its event, and keeps `Inv`. |
| `Service.ComponentLoaderService.CompleteFailure` | libs/ngx-lazy-el/src/lib/component-loader.service.ts:140-148 | `delete` on `elementsLoading` only, exactly as `Loader.FailureStep` describes, keeping `Inv`. |
| `Service.ComponentLoaderService.LoadContainedCustomElements` | libs/ngx-lazy-el/src/lib/component-loader.service.ts:46-67 | Filters the two key lists and requests each discovered selector in turn, exactly as `Discovery.LoadContained` describes. Keeps `Inv`. |

## Left out

- Angular module loading: `loadChildren()`, the `NgModuleFactory` check, `compileModuleAsync`, `moduleFactory.create` and `createCustomElement` (lines 90-115). These are framework calls; together they are one opaque step that either succeeds (giving a module reference) or fails.
- `customElements.define` and `whenDefined` (lines 118-121): the host's custom element registry, section 4.13.4 of the WHATWG HTML Living Standard. Their outcome is folded into the success or failure completion.
- DOM work: `element.querySelector` becomes the set `present`; `document.createElement` becomes a fresh identity from a counter.
- Promise and Observable plumbing, and scheduling. `Promise.all` and `from` at lines 63-66 are not modelled: `LoadContainedCustomElements` returns the list of per-selector promises, not their joined settlement. The all-or-error behaviour of the join is therefore not modelled.
- The short window between `loadedCmps.set` (line 123) and the deletes (lines 137-138): a success is one atomic step.
- Rejection of waiters on failure: when a load fails after `loadChildren` has returned a promise (lines 140-148), the code never rejects the shared promise, so no rejection is modelled (see above). The one path where the promise is rejected, a synchronous throw inside the executor, is modelled only as the as-written state of "## Findings".
- Dependency injection: the decorators and the injected `NgModuleFactoryLoader`, `NgModuleRef`, `Injector` and `Compiler` (lines 1-35).
- `Service.ComponentLoaderService.CompleteSuccess`: requires the selector to be in flight. A success callback exists only for a load that was started and not yet cleaned up, so a completion for any other selector cannot happen.
- `Service.ComponentLoaderService.CompleteFailure`: requires the selector to be in flight, for the same reason.

## Findings

| source | as written | input that shows it | evidently intended | confidence | as-written member | corrected member |
|---|---|---|---|---|---|---|
| libs/ngx-lazy-el/src/lib/component-loader.service.ts:89-151 | `loadChildren()` is called inside the `Promise` executor. If it throws synchronously, or returns a value without `then`, the executor throws, the promise is rejected, and line 151 still stores it in `elementsLoading`. No `catch` handler is attached, so nothing ever deletes the entry. | A declared selector whose `loadChildren` throws synchronously: request it once, then request it again. The second request joins the stale rejected promise, and no new load ever starts. | Clean up as the `catch` handlers at lines 141 and 146 do for every other failure, so that the next request starts a new load. | not executed; medium-high | `Loader.SyncLoaderThrowPoisonsSelector` (on `Loader.SyncLoaderThrowAsWritten`) | `Loader.FailureIsRetriable` (on `Loader.FailureStep`, which the model uses for every failure) |
