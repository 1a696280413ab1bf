# Event delegation registry

This project models `src/lib/eventManager.js`, the event-delegation module of the
repository. The module keeps two pieces of process-wide state:

- `eventMap` maps an event type to an inner `Map`. Each inner `Map` takes a key to a handler, and the key is either an element or a selector string.
- `rootElement` is the delegation root, which is `null` until `setupEventListeners` runs.

The module has four operations:

- `addEvent` stores a handler.
- `removeEvent` deletes a key and, once a root is set, drops a type whose table it empties. Before setup, emptying a table throws at line 78 and the empty table stays stored.
- `setupEventListeners` sets the root, removes the root's own key from every type and attaches one native listener per type.
- `handleEvent` is the native listener. It runs nothing unless the exact target is itself a key of the type's table (line 34). Otherwise it runs the first entry, in insertion order, that is the target or a selector the target matches.

The model is in four files:

- `wrappers.dfy` (module `Wrappers`) holds the `Option` type.
- `registry.dfy` (module `Registry`) holds the registry as values:
  - an inner table is a sequence of entries in insertion order, with unique keys;
  - `Map.has`, `Map.set` and `Map.delete` are functions on that sequence;
  - `Register`, `Unregister` and `RemoveRootKey` give the effect of each operation on the whole registry;
  - `Dispatch` says what `handleEvent` does;
  - the lemmas cover round trips, overwrites, order preservation and dispatch outcomes.
- `event_manager.dfy` (module `Delegation`) holds the class `EventManager`:
  - its fields are `eventMap`, `rootElement` and `listeners`, the set of native listeners the module has attached;
  - there is one method per operation, proved against the `Registry` functions;
  - `HandleEvent` is the `for … of` loop with `break`.
- `scenarios.dfy` (module `Scenarios`) holds client runs. They are derived from the operations' contracts and small registry lemmas, not from the method bodies, and some of them show where the code does not do what its own comments say.

The inner `Map`'s keys are modelled as a tagged variant: `Exact(element)` or `Selector(string)`. This replaces the `typeof` tests at lines 37 and 42. The host's `element.matches(selector)` is a function parameter `matches`. A handler is an opaque value: one of the `Callback` values, or `Delegate`, which stands for `handleEvent` itself. Running a handler is modelled only as "this entry fired".

## Where the code differs from its own comments

The model follows the code, not the comments.

- **Capture phase:** the comment at line 12 says delegation uses event capturing. Line 21 calls `addEventListener` without a capture flag, so the listener is a bubbling one (`Listener(root, t, false)`).
- **Removing old listeners:** the comment at line 17 says existing listeners are removed first. Line 20 calls `removeEvent(rootElement, eventType, handleEvent)` instead. That deletes the root's own key from the registry and removes no listener. A type whose only key is the root is dropped, and line 21 still attaches its listener (`Scenarios.SetupDropsRootKey`). Calling `setupEventListeners` again with a new root leaves the listeners on the old root attached.
- **Detaching with the last handler:** the comment at line 76 says the root's listener is removed with the last handler of a type. Line 78 passes the capture flag `true`, which never matches the listener added at line 21, so no listener is ever detached. `Delegation.EventManager.RemoveEvent` proves `listeners == old(listeners)`. `Scenarios.RemoveAfterSetup` shows a type that is gone while its listener stays attached.
- **Bubbling to the root:** the comment at line 28 says dispatch walks from the target up to the root. The code never looks at ancestors. It compares keys against the exact target only: identity for an element, `matches` on the target for a selector.
- **Adding a listener:** the comment at line 61 says `addEvent` adds a root listener when needed. `addEvent` never attaches one (`Scenarios.RegisterAfterSetupIsInert`).

Two more behaviours of the code:

- **Selector alone:** the guard at line 34 requires the exact target to be a key of the type's table, so a selector key on its own never fires, even on a matching target (`Scenarios.SelectorAloneDoesNotFire`). When the guard passes, an earlier matching selector runs instead of the target's own entry (`Scenarios.EarlierSelectorWins`).
- **Early removal throws:** removing the last key of a type before `setupEventListeners` reaches `null.removeEventListener` at line 78 and throws. The key is already deleted by then, and the emptied table stays in `eventMap`. The model returns `RootIsNull` (`Scenarios.RemoveBeforeSetupThrows`).

## Model

| member | source | states |
|---|---|---|
| Registry.IndexOf | src/lib/eventManager.js:34 | the key lookup behind `has` (lines 34 and 72): the position found holds key `k` and is its first occurrence in insertion order; when there is none, no entry has key `k` |
| Registry.Has | src/lib/eventManager.js:72 | `has(k)` holds exactly when some entry of the table has key `k` |
| Registry.Get | src/lib/eventManager.js:63 | the observer the `Set`/`Delete`/`Register`/`Unregister` contracts use to say which handler a key holds (the code never calls `get` on an inner map): a handler is found exactly when the key is present, and on a unique-key table it is the handler stored with that key |
| Registry.Set | src/lib/eventManager.js:63 | after `set(k, h)`, `k` maps to `h`; an existing key keeps its position and the table keeps its length; a new key is appended at the end; every other key keeps its position and handler; unique keys are preserved |
| Registry.SetTwice | src/lib/eventManager.js:63 | setting a key twice equals setting it once to the second handler |
| Registry.Delete | src/lib/eventManager.js:72-74 | an absent key leaves the table unchanged; a present key shortens it by one; other keys keep their handlers; on a unique-key table the key is gone afterwards |
| Registry.DeleteAppended | src/lib/eventManager.js:73 | deleting the key that was just appended gives back the table it was appended to |
| Registry.DeleteKeepsOrder | src/lib/eventManager.js:73 | deleting a key keeps the remaining keys present and keeps their relative insertion order, in both directions |
| Registry.Register | src/lib/eventManager.js:57-63 | the types become the old ones plus `t`; other types are untouched; `k` maps to `h` under `t`; a new type gets exactly one entry; other keys of `t` keep handler and position; an existing `k` keeps its position, and a new `k` is appended; well-formedness and "no empty type" are preserved |
| Registry.RegisterOverwrites | src/lib/eventManager.js:57-63 | registering the same key and type twice equals registering only the last handler |
| Registry.Unregister | src/lib/eventManager.js:69-81 | an unknown type changes nothing; other types are untouched; `t` stays exactly when its table is non-empty after the delete, and then its table is `Delete` of the old one, so the other keys keep their handlers and their order, and `k` is gone; well-formedness and "no empty type" are preserved |
| Registry.UnregisterKeepsOrder | src/lib/eventManager.js:72-79 | the keys other than `k` left in type `t` after a removal are still present and keep their relative insertion order, in both directions |
| Registry.RegisterThenUnregister | src/lib/eventManager.js:53-81 | once the root is set, adding a fresh key and then removing it gives back the original registry |
| Registry.FirstMatch | src/lib/eventManager.js:36-47 | the index found is in range and its key matches the target, and no earlier key matches; when there is none, no key matches |
| Registry.Dispatch | src/lib/eventManager.js:27-50 | `preventDefault` is called exactly when a handler runs; a handler runs exactly when the event type is registered and the exact target is one of its keys; the entry that runs is the first in insertion order whose key matches the target |
| Registry.RegisteredTargetFires | src/lib/eventManager.js:34-46 | after registering `Exact(a)` for `t`, an event of type `t` on `a` runs that handler and prevents the default exactly when no entry before `a`'s own, in insertion order, matches `a` |
| Registry.UnregisteredTargetFiresNothing | src/lib/eventManager.js:34 | after removing `Exact(a)` from `t`, an event of type `t` on `a` runs no handler and leaves the default alone |
| Registry.RemoveRootKey | src/lib/eventManager.js:19-20 | a processed type survives exactly when deleting the root's key leaves it non-empty, and then its table is `Delete` of the old one: the root's key is gone and the other keys keep their handlers and order; unprocessed types are untouched; well-formedness is preserved |
| Registry.RemoveRootKeyStep | src/lib/eventManager.js:19-20 | one `removeEvent(rootElement, t, handleEvent)` call on an unprocessed type moves the registry from "types in `done` processed" to "types in `done + {t}` processed" |
| Registry.RemoveAbsentRootKey | src/lib/eventManager.js:19-20 | when the new root is not a key of any type and no type is stored empty, the loop's removals leave the registry as it was |
| Registry.RootListenersCount | src/lib/eventManager.js:19-21 | the loop attaches exactly as many root listeners as there were types in the snapshot, one per type |
| Delegation.EventManager.constructor | src/lib/eventManager.js:5-8 | the module starts with an empty `eventMap`, `rootElement = null` and no listener |
| Delegation.EventManager.AddEvent | src/lib/eventManager.js:53-64 | `eventMap` becomes `Register` of the old one; the root and the listeners are unchanged, so no listener is attached |
| Delegation.EventManager.RemoveEvent | src/lib/eventManager.js:67-83 | the call throws exactly when the type's table is empty after the delete and there is no root; otherwise `eventMap` becomes `Unregister` of the old one; on the throw the emptied table stays stored; matching is by key only; the capture-flag removal never detaches a listener |
| Delegation.EventManager.SetupEventListeners | src/lib/eventManager.js:13-23 | the root becomes `root`; `eventMap` becomes `RemoveRootKey` over every type present at the start; one bubbling listener per such type is added to the root; afterwards no type is stored empty |
| Delegation.EventManager.RetargetType | src/lib/eventManager.js:19-22 | one `forEach` callback: the removal cannot throw, because the root is set; it is `Unregister` of the root's key, and it adds one bubbling listener |
| Delegation.EventManager.HandleEvent | src/lib/eventManager.js:27-50 | the loop's outcome is `Dispatch` on the current registry |
| Scenarios.ClickOnRegisteredElement | src/lib/eventManager.js:34-41 | register `a`, set up, then click `a`: `a`'s handler runs and the default is prevented |
| Scenarios.OverwriteKeepsLast | src/lib/eventManager.js:63 | with two handlers registered for one key, the click runs the second handler |
| Scenarios.SelectorAloneDoesNotFire | src/lib/eventManager.js:34 | a selector key alone runs nothing, even on a matching target |
| Scenarios.EarlierSelectorWins | src/lib/eventManager.js:36-46 | a matching selector registered before the target runs instead of the target's handler |
| Scenarios.DispatchSelectorOnly | src/lib/eventManager.js:34 | a table that holds only a selector key runs nothing for any target, matching or not |
| Scenarios.DispatchSelectorFirst | src/lib/eventManager.js:36-46 | in a table holding a matching selector before the target's own key, the selector's handler runs and the default is prevented |
| Scenarios.RemoveBeforeSetupThrows | src/lib/eventManager.js:77-78 | removing the last key before setup throws |
| Scenarios.RemoveAfterSetup | src/lib/eventManager.js:67-81 | after setup, removing `a` runs nothing on a click, while the root's listener stays attached |
| Scenarios.SetupDropsRootKey | src/lib/eventManager.js:19-21 | a type whose only key is the root is dropped by setup, but still gets its listener |
| Scenarios.RegisterAfterSetupIsInert | src/lib/eventManager.js:53-64 | a type first registered after setup is stored but has no listener |

## Left out

- The outer `Map`'s key order: only the `forEach` at line 19 observes it, and the effect of that loop does not depend on the order (`Registry.RemoveRootKeyStep` lets the model process the types in any order). So `eventMap` is a Dafny `map`; each inner table keeps its insertion order as a sequence.
- The DOM is not modelled. `element.matches(selector)` is a parameter. `addEventListener`/`removeEventListener` are recorded in the `listeners` set, and no native event is delivered. A `matches` call that throws on an invalid selector is not modelled.
- Handler bodies are not modelled, so neither is their effect on the registry. Reentrancy (a handler calling `addEvent` or `removeEvent` during dispatch) is therefore not modelled either.
- JavaScript values other than an element or a string used as a key: the `typeof` tests at lines 37 and 42 are modelled as the `Exact` and `Selector` tags. A key of any other type, which the loop would skip, is not modelled.
- A `rootElement` that is not an element is not modelled. Neither is the `handler` argument of `removeEvent`, which the code ignores, and the model ignores it too.
- Aliasing of the inner `Map` objects: each inner table is a value stored in `eventMap`. The code's in-place `set` and `delete` on the object returned by `eventMap.get` are modelled as replacing the stored table.
- The thrown `TypeError` is modelled as the status `RootIsNull`. Exception propagation to the caller is not modelled.
