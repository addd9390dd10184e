# angular-escape `esc` service, modelled in Dafny

The `esc` service of angular-escape gives an application two one-shot listeners on the
document:

- `key(cb, $scope)` runs `cb` on the first Escape keydown whose target is not a form
  control.
- `click(cb, element, $scope)` runs `cb` on the first click outside `element`, or on the
  first click anywhere when no element is given.

Both handlers detach themselves after running `cb`. Both return an `unregister` function,
and when a scope is given, the scope's `$destroy` calls that same function.

The model has four modules:

- `Keys` holds the two tests of the Escape filter.
  - The effective key code `ev.which || ev.keyCode`.
  - The `/input|textarea|select/i` test on the target's `nodeName`. It is modelled as an
    ASCII case-insensitive substring search, `Occurs`, and proved equal to a
    "the word occurs somewhere" definition.
- `Dom` holds the document tree and the element argument.
  - The tree is a finite map of `parentNode` links with a depth rank that makes it acyclic.
  - `Unwrap` replaces an element argument that has a first indexed item (`element[0]`)
    with that item. A jqLite wrapper becomes its first node. A raw `<form>` or `<select>`,
    which the DOM also indexes, becomes its first control or option.
  - `ClickedInside` is the `while (t = t.parentNode)` walk as a loop. It is proved to answer
    "inside" exactly when the boundary is the target or one of its ancestors.
- `Esc` holds the service.
  - `Document` is the listener registry that `$document.on`/`off` update in place. Its
    `callbacks` field is a trace of the callbacks that ran, each named by the handler that
    called it.
  - `Handler` is the closure built by `key`/`click`, with its filter and its body `Handle`.
  - `Unregister` is the closure `register` returns.
  - `Scope` holds a scope's `$destroy` subscriptions.
  - `Service` has `key`, `click` and `register`.
  - Delivering a sequence of events is related to pure specification functions:
    - `Unfired` is the entries still registered.
    - `FiredBy` and `FiredAll` are the callbacks run, in order.

    The one-shot guarantee is proved about them: over any sequence of events, a registered
    handler's callback runs exactly once if some event passes its filter and never
    otherwise (`RunsAtMostOnce`).
- `Scenarios` replays the library's test suite on the model. Each method builds a
  document, registers, delivers the test's events and proves the callback count and the
  registration's final phase (`Armed`, `Fired` or `Cancelled`).

The form-control test at index.js:39 is a case-insensitive substring test of the target's
`nodeName`, not a match of the whole tag, and the model follows it. So any element whose
name contains one of the three words is also treated as a form control, for example
`MD-SELECT` or `X-INPUT-GROUP` (`Keys.SubstringNamesMatch`).

## Model

| member | source | states |
|---|---|---|
| Keys.IsEscape | index.js:32 | The test that `ev.which`, or `ev.keyCode` when `which` is falsy, equals 27, computed via the helper `EffectiveCode`: the key is Escape exactly when `which` is 27, or `which` is 0 and `keyCode` is 27. A non-zero `which` decides alone. |
| Keys.Occurs | index.js:39 | The left-to-right search answers true exactly when the word occurs at some position of the name, ignoring ASCII case. |
| Keys.IsFormControl | index.js:39 | A name is a form control exactly when it contains `input`, `textarea` or `select`, ignoring case. |
| Keys.FormControlTags | index.spec.js:119-123 | `INPUT`, `TEXTAREA` and `SELECT` are form controls. |
| Keys.SubstringNamesMatch | index.js:39 | Names that only contain one of the words, such as `MD-SELECT` and `X-INPUT-GROUP`, are also form controls. |
| Keys.ShortNameIsNotFormControl | index.js:39 | A name shorter than five characters is never a form control. |
| Keys.ButtonAndDocumentAreNotFormControls | index.spec.js:123 | `BUTTON` is not a form control. Neither is `#document`, the target of a key press with no element focused. |
| Dom.Unwrap | index.js:52 | An argument with a first indexed item becomes that item: a jqLite wrapper's first node, or a raw `<form>`'s or `<select>`'s first item. A missing element gives no boundary. A raw node without indexed items stays that node. An empty wrapper is a boundary that is not a node. |
| Dom.NodeBoundary | index.js:52-67 | A click is inside a raw node without indexed items, or a wrapper of one node, exactly when it is inside that node. |
| Dom.IndexedNodeBoundary | index.js:52-67 | A click inside a raw `<form>` or `<select>` but outside its first item counts as outside, because the boundary became that item. |
| Dom.NoNodeBoundary | index.js:52-67 | With a missing element or an empty wrapper, no click is inside the boundary. |
| Dom.ChainIsPathToRoot | index.js:62-66 | The chain the walk visits starts at the target. It follows one `parentNode` link per step and ends at the first node whose `parentNode` is null. |
| Dom.ChainUnique | index.js:62-66 | There is only one such path from a node to a root. |
| Dom.WithinChain | index.js:58-66 | A node is inside the boundary exactly when the boundary is on the node's chain of itself and its ancestors. |
| Dom.WithinTransitive | index.js:62-66 | A descendant of a descendant of the boundary is inside the boundary. |
| Dom.ParentIsOutside | index.spec.js:250-256 | The boundary's own parent is outside the boundary. |
| Dom.SiblingIsOutside | index.spec.js:258-264 | A sibling of the boundary is outside the boundary. |
| Dom.ClickedInside | index.js:55-67 | The walk terminates. It returns true exactly when the unwrapped boundary is a DOM node equal to the target or to one of its ancestors. With no boundary it returns false. |
| Esc.Without | index.js:80 | `off` for an entry that is not registered leaves the registry unchanged. |
| Esc.WithoutMember | index.js:79-81 | After `off(event, handler)` an entry is registered exactly when it was before and is not that (event, handler) pair. |
| Esc.WithoutHandlers | index.js:79-81 | `off` adds no handler and never makes a handler appear twice. |
| Esc.DistinctConcat | index.js:82 | Appending with `on` keeps handlers unique exactly when the new handler was not registered. |
| Esc.UnfiredMember | index.js:43-45 | After a sequence of events, an entry is still registered exactly when it was before and no event passed its handler's filter. |
| Esc.UnfiredHandler | index.js:69-71 | The same, stated for handlers. |
| Esc.UnfiredHandlers | index.js:43-45 | Delivery adds no handler, keeps no handler an event fired, and never makes a handler appear twice. |
| Esc.UnfiredStep | index.js:30-75 | Delivering the events one after another leaves the same registry as delivering the whole sequence. |
| Esc.AnyFiresSome | index.js:30-75 | The recursive "some event fired the handler" agrees with the existential over the event positions. |
| Esc.FiredByOnce | index.js:43-45 | With unique handlers, one event runs each registered handler's callback once if the event passes its filter, and no other callback. |
| Esc.RunsAtMostOnce | index.js:43-45 | Over any sequence of events, a registered handler's callback runs exactly once if some event passes its filter and never otherwise. An unregistered handler's callback never runs. |
| Esc.FiredIsDetached | index.js:69-71 | A handler whose callback ran is no longer registered. A handler that was not registered neither runs nor becomes registered. |
| Esc.PhaseOf | index.js:43-82 | A Fired registration's callback has run. A Cancelled one's has not. |
| Esc.ArmedIsRegistered | index.js:77-82 | In a well-named registry a registration is Armed exactly when its handler has an entry. |
| Esc.PhaseStays | index.js:43-80 | A step that only drops entries and runs only registered handlers moves no registration out of Fired or Cancelled. |
| Esc.PhaseFinalUnderEvent | index.js:30-75 | Delivering one event moves no registration out of Fired or Cancelled. |
| Esc.PhaseFinalUnderDelivery | index.js:30-75 | Delivering any sequence of events moves no registration out of Fired or Cancelled. |
| Esc.PhaseFinalUnderOff | index.js:78-80 | `off` moves no registration out of Fired or Cancelled. |
| Esc.PhaseFinalUnderHooks | index.js:84-86 | Running `$destroy` hooks moves no registration out of Fired or Cancelled. |
| Esc.OffDetaches | index.js:78-80 | `off(h's event, h)` leaves no entry of `h`. |
| Esc.HooksDetach | index.js:84-86 | After the hooks run, no hooked handler has an entry left. |
| Esc.CancelledNeverRuns | index.js:77-82 | An unregistered handler's callback runs zero times over any sequence of events, and the handler never becomes registered again. |
| Esc.OneEntry | index.js:30-75 | With one registered entry, an event either runs its callback and removes it, or changes nothing. |
| Esc.Document.constructor | index.js:21 | A fresh document has no listeners and no callbacks run. |
| Esc.Document.On | index.js:82 | Appends exactly one entry and keeps the registry valid when the handler is new. |
| Esc.Document.Off | index.js:80 | Removes exactly the entries equal to (event, handler), changes no trace and keeps the registry valid. |
| Esc.Document.Deliver | index.js:31-72 | Delivering to one entry of the snapshot runs that handler's callback exactly when its filter passes. The registry moves to the state after that entry. |
| Esc.Document.Dispatch | index.js:30-75 | One event runs, in registration order, exactly the callbacks of the handlers it fires. It removes exactly those handlers and keeps every other entry. No registration leaves Fired or Cancelled. |
| Esc.Document.DeliverNext | index.js:30-75 | One more event of a sequence extends the registry and trace to those after the longer prefix. |
| Esc.Document.DispatchAll | index.js:30-75 | A sequence of events leaves exactly the entries none of them fired. The trace grows by `FiredAll`, where each callback runs at most once. No registration leaves Fired or Cancelled. |
| Esc.Handler.constructor | index.js:31 | The closure captures its document and its filter. |
| Esc.Handler.Fires | index.js:31-67 | An event passes the filter only if the event is of the handler's own event name. |
| Esc.Handler.Phase | index.js:43-82 | With a valid registry the handler is Armed exactly when it has an entry. Fired means its callback ran. Cancelled means it did not. |
| Esc.Handler.Handle | index.js:31-72 | On an event that passes the filter, the handler records one callback and removes its own entry. Otherwise nothing changes. |
| Esc.Unregister.constructor | index.js:78-80 | The closure captures the document, the event name and the handler. |
| Esc.Unregister.Call | index.js:78-80 | Removes only that handler's entry for that event and runs no callback. The handler then has no entry left. A second call, or a call after firing, is a no-op. No registration leaves Fired or Cancelled. |
| Esc.WithoutAllMember | index.js:84-86 | After the hooks run, an entry is registered exactly when it was before and no hook targets it. |
| Esc.Scope.constructor | index.js:84 | A fresh scope has no `$destroy` subscriptions. |
| Esc.Scope.OnDestroy | index.js:85 | Subscribing appends the `unregister` closure. |
| Esc.Scope.RunHooks | index.js:84-86 | Runs every subscribed `unregister` in order, runs no callback, and keeps the registry valid. |
| Esc.Scope.Destroy | index.js:84-86 | Destroying the scope runs every subscribed `unregister` in order and runs no callback. Every hooked handler then has no entry left, and no registration leaves Fired or Cancelled. |
| Esc.Service.constructor | index.js:21 | The service is bound to its document. |
| Esc.Service.Register | index.js:77-89 | Adds exactly one (event, handler) entry. Returns a fresh closure that targets exactly that entry. Subscribes the closure to the scope's `$destroy` when a scope is given. |
| Esc.Service.Key | index.js:30-49 | Registers a fresh Escape handler under `keydown`. |
| Esc.Service.Click | index.js:51-75 | Registers a fresh outside-click handler under `click`, with the unwrapped boundary. |
| Scenarios.EnterAndEscape | index.spec.js:82-86 | An Escape handler ignores Enter and takes an Escape pressed on the document. |
| Scenarios.EscapeFiresOnce | index.spec.js:79-95 | Enter: 0 calls. First Escape: 1 call. Four more Escapes: still 1 call, and the registration is Fired. |
| Scenarios.EscapeUnregistered | index.spec.js:97-105 | `unregister` then Escape: 0 calls, and the registration is Cancelled. |
| Scenarios.EscapeScopeDestroyed | index.spec.js:107-116 | Scope destroyed, then Escape: 0 calls, and the registration is Cancelled. |
| Scenarios.EscapeIgnoredInFormControl | index.spec.js:118-151 | Escape in an `INPUT`, `TEXTAREA` or `SELECT`: 0 calls, and the registration stays Armed. |
| Scenarios.ClickFiresOnce | index.spec.js:173-185 | With no boundary, the first click gives 1 call and the second click leaves it at 1. The registration is Fired. |
| Scenarios.ClickUnregistered | index.spec.js:187-195 | `unregister` then click: 0 calls, and the registration is Cancelled. |
| Scenarios.ClickScopeDestroyed | index.spec.js:197-206 | Scope destroyed, then click: 0 calls, and the registration is Cancelled. |
| Scenarios.ClickInsideBoundary | index.spec.js:234-248 | Clicks on the boundary and on two nested descendants: 0 calls, and the registration stays Armed. |
| Scenarios.ClickParentOfBoundary | index.spec.js:250-256 | A click on the boundary's parent gives 1 call, and the registration is Fired. |
| Scenarios.ClickOutsideBoundary | index.spec.js:258-264 | A click on a sibling of the boundary gives 1 call, and the registration is Fired. |
| Scenarios.FiredStaysFired | index.spec.js:79-95 | After an Escape fires the handler, any later sequence of events leaves it at 1 call and Fired. |
| Scenarios.UnregisteredStaysCancelled | index.spec.js:187-195 | After `unregister`, any later sequence of events leaves the callback at 0 calls and the registration Cancelled. |
| Scenarios.DestroyedStaysCancelled | index.js:77-89 | After the scope both handlers share is destroyed, any later sequence of events leaves both at 0 calls and Cancelled. |

## Left out

- The UMD/AMD/CommonJS loader wrapper (index.js:1-19) and the Angular module and injector registration (index.js:92-99). They are module plumbing with no behaviour.
- The callback `cb` and its side effects. A run of `cb` is recorded as the handler appended to `Document.callbacks`. A callback that throws, which would skip the `off` after it, is not modelled. The trace records which handler ran `cb`, not the event `cb` was called with.
- The browser's event dispatch and bubbling. An event is delivered, in registration order, to the listeners registered when it arrives (a snapshot, as jqLite copies its handler list). A handler unregistered by an earlier handler during the same delivery is not modelled.
- The same-tick re-entrancy test (index.spec.js:266-277) and the `$timeout`-deferred test (index.spec.js:279-300). They depend on the browser's dispatch algorithm and on Angular's timer service.
- jqLite's `on`, `off` and `$scope.$on`. They are modelled as "append an entry", "remove the entries equal to (event, handler)" and "append the hook to the scope's destroy list". A scope is not marked destroyed: in Angular a second `$destroy`, or a `$on` made after it, does nothing, while in the model `Destroy` can run again and `OnDestroy` still subscribes.
- The regular-expression engine. Line 39 is modelled as an ASCII case-insensitive substring search for the three fixed words. JavaScript's `/i` folds non-ASCII letters too, but no non-ASCII letter folds to an ASCII letter of these words.
- Keys.IsEscape: an absent `which` is modelled as 0, the same falsy value. An absent `keyCode` is modelled as any code other than 27.
- Esc.Service.Register: requires the handler not to be registered already. `key` and `click` always pass a fresh closure, so every call from the service meets it.
- Esc.Document.Deliver: requires the registry, apart from the entries already served, to be the snapshot. Reentrant `on`/`off` calls from inside a callback are not modelled.
- Dom.Unwrap: which raw nodes expose indexed items, and which items, is an input of the model (`Raw.items`). The DOM's rules for that (the controls of a form, the options of a select) are not modelled.
