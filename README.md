# KeyPressHandler in Dafny

A model of `KeyPressHandler`, a small TypeScript class that turns a browser's
key-down and key-up events into calls of registered callbacks. It
distinguishes a short tap (`wasLongPress = false`) from a held key
(`wasLongPress = true`) by arming a per-key long-press timer. Bindings are
keyed by the sorted list of their keys, so the order in which keys are listed
or pressed does not matter. Once a binding has fired, nothing else fires until
every key is up again.

The project has three modules.

- `KeyCanon` (`key_canon.dfy`) covers the canonical names and combinations.
  - ASCII lower-casing of key names.
  - A total order on strings.
  - An insertion sort, with its contract: sorted, and a permutation of its input.
  - The fact that makes sorted lists canonical: two lists sort to the same list
    exactly when they are permutations of each other (`SortCanonical`).
  - Removal from an insertion-ordered set.
- `HandlerModel` (`handler_model.dfy`) is the handler as a value.
  - A `State` record holds the handler's fields.
  - There is one transition function per event, and a `Fire` event that stands for a timer running out.
  - `Inv` is the invariant between the fields.
  - Event traces (`Step`, `Run`) carry the lemmas for the properties below.
- `Handler` (`handler.dfy`) is the class `KeyPressHandler`, with the source's fields.
  - Each method updates the fields step by step, as the source does.
  - Each method promises `Model() == HandlerModel.X(old(Model()), …)`, so
    everything proved about the transition functions holds of the object.

How the model represents the source:

- The active key set keeps its insertion order, because a JavaScript `Set`
  iterates in insertion order. It is a `seq<string>` without repetitions;
  `add` appends and `delete` is `Remove`.
- `JSON.stringify(keys.sort())` becomes `Sort(keys)`. `JSON.stringify` is
  injective on arrays of strings, so keying the table by the sorted sequence
  identifies the same bindings.
- Timestamps and the threshold are `real`s, like JavaScript numbers but
  without rounding.
- A handle from `setTimeout` is a `Timer(handle, delayMs)`. Handles come from
  a counter `nextHandle`; only their freshness matters.
- A callback is an opaque `CallbackId`. Calling it appends
  `Invocation(id, wasLongPress)` to the `invocations` log.

Four behaviours of the handler are easy to get wrong; the model keeps them
as written:

- `addKeyBinding` does not reject an empty key list.
- `addKeyBinding` does not lower-case its keys, so a binding with an
  upper-case letter never matches. `RegisteredKeysMatchHeldSet` also shows
  that a list with a repeated key never matches.
- Nothing cancels pending timers on detaching.
- `wasLongPress` is the single shared `longPress` flag. It is not an "any key
  held long" rule.

## Model

| member | source | states |
|---|---|---|
| `KeyCanon.LowerChar` | src/KeyPressHandler.ts:37 | the result is never an ASCII capital; capitals map to the matching lower-case letter and every other character is kept |
| `KeyCanon.ToLower` | src/KeyPressHandler.ts:37 | same length, each character lower-cased, and no upper-case character is left |
| `KeyCanon.ToLowerIdempotent` | src/KeyPressHandler.ts:56 | key names are normalised: lower-casing a lower-cased name changes nothing |
| `KeyCanon.Insert` | src/KeyPressHandler.ts:84 | inserting into a sorted list gives a sorted list with the inserted name added to its multiset |
| `KeyCanon.Sort` | src/KeyPressHandler.ts:22 | `sort()` yields a sorted permutation of its input |
| `KeyCanon.SortedUnique` | src/KeyPressHandler.ts:84-85 | two sorted lists with the same elements and multiplicities are equal |
| `KeyCanon.SortCanonical` | src/KeyPressHandler.ts:84-85 | two key lists have the same sorted form if and only if they are permutations of each other |
| `KeyCanon.NoDupCardinality` | src/KeyPressHandler.ts:100-102 | for a list without repetitions, the set size equals the list length |
| `KeyCanon.SameMultisetAsSet` | src/KeyPressHandler.ts:84-85 | against a repetition-free list, being a permutation is the same as being repetition-free with the same element set (both directions) |
| `KeyCanon.Remove` | src/KeyPressHandler.ts:78 | `Set.delete` removes exactly that key, keeps every other key, keeps the list repetition-free, and changes nothing for an absent key |
| `KeyCanon.RemoveKeepsOrder` | src/KeyPressHandler.ts:78 | deleting a key from the repetition-free active list cuts out its single occurrence and keeps the other keys in their insertion order |
| `HandlerModel.SecondsOf` | src/KeyPressHandler.ts:92-94 | the seconds view times 1000 is the millisecond threshold |
| `HandlerModel.MillisOf` | src/KeyPressHandler.ts:96-98 | setting `s` seconds makes the seconds view read back `s` exactly |
| `HandlerModel.MillisSecondsRoundTrip` | src/KeyPressHandler.ts:92-98 | reading the seconds view and writing it back leaves the milliseconds unchanged |
| `HandlerModel.Initial` | src/KeyPressHandler.ts:11-19 | a new handler satisfies the invariant, holds no keys, has no bindings, has invoked nothing, both flags are down, and its threshold is 500 ms, read as 0.5 s |
| `HandlerModel.AddKeyBinding` | src/KeyPressHandler.ts:21-23 | only the binding table changes; the new callback is found for `keys`; every other entry is kept; exactly the sorted key list is added |
| `HandlerModel.CheckKeyCombination` | src/KeyPressHandler.ts:83-90 | an unmatched combination changes nothing; a match appends exactly the callback bound to the sorted active keys, passing the long-press flag, and raises the fired flag; nothing else changes |
| `HandlerModel.EvaluateUnlessFired` | src/KeyPressHandler.ts:74 | once a binding has fired, evaluation is skipped entirely; otherwise it is the combination check |
| `HandlerModel.HandleKeydown` | src/KeyPressHandler.ts:35-53 | a key already active changes nothing; otherwise it is appended to the active keys with its start time and a fresh timer armed with the current threshold; a key-down never invokes a callback or touches the flags |
| `HandlerModel.LongPressTimeout` | src/KeyPressHandler.ts:46-50 | the timer raises the long-press flag, removes only its own handle, and invokes at most the matching callback with `true`, only if nothing has fired yet; keys and start times stay |
| `HandlerModel.HandleKeyup` | src/KeyPressHandler.ts:55-81 | a key with no start time changes nothing; a key-up never changes the bindings, the threshold or the handle counter |
| `HandlerModel.EndPress` | src/KeyPressHandler.ts:60-72 | the key's timer is gone after a key-up; the long-press flag is lowered exactly when the press was shorter than the threshold |
| `HandlerModel.ReleaseKey` | src/KeyPressHandler.ts:76-79 | the key loses its start time and leaves the active set; the fired flag is reset exactly when no key is left |
| `HandlerModel.SetThresholdMs` | src/KeyPressHandler.ts:9 | assigning milliseconds changes only the threshold, and the seconds view then reads ms/1000 |
| `HandlerModel.SetThresholdSeconds` | src/KeyPressHandler.ts:96-98 | assigning seconds changes only the threshold, and the seconds view then reads the assigned value |
| `HandlerModel.KeydownKeepsInv` | src/KeyPressHandler.ts:39-52 | a key-down keeps the invariant: the active keys stay a set and are exactly the keys with start times; timers exist only for active keys; handles are fresh |
| `HandlerModel.KeyupReleasesKey` | src/KeyPressHandler.ts:59-80 | after the key-up of a held key, that key has no start time, is not active and has no timer; the active keys become `Remove(activeKeys, key)`; with no key left the fired flag is down |
| `HandlerModel.EvaluateKeepsInv` | src/KeyPressHandler.ts:86-88 | raising the fired flag while some key is held keeps the invariant |
| `HandlerModel.ReleaseKeepsInv` | src/KeyPressHandler.ts:77-79 | removing a key whose timer is gone keeps the invariant |
| `HandlerModel.KeyupKeepsInv` | src/KeyPressHandler.ts:55-81 | a key-up keeps the invariant |
| `HandlerModel.TimeoutKeepsInv` | src/KeyPressHandler.ts:46-50 | a firing timer keeps the invariant |
| `HandlerModel.AddKeyBindingKeepsInv` | src/KeyPressHandler.ts:21-23 | registering a binding keeps the invariant |
| `HandlerModel.AddKeyBindingIgnoresOrder` | src/KeyPressHandler.ts:22 | registering any permutation of the same keys yields the same state |
| `HandlerModel.LastRegistrationWins` | src/KeyPressHandler.ts:22 | a second registration of the same keys, in any order, replaces the first |
| `HandlerModel.LookupAfterAddKeyBinding` | src/KeyPressHandler.ts:84-85 | after a registration, held keys find the new callback exactly when they are a permutation of the registered keys, and otherwise find what they found before |
| `HandlerModel.RegisteredKeysMatchHeldSet` | src/KeyPressHandler.ts:84-85 | a registration matches a held set exactly when it lists each held key once and nothing else |
| `HandlerModel.KeyupEvaluatesBeforeRelease` | src/KeyPressHandler.ts:70-78 | a key-up evaluates the active set with the released key still in it, passing `false` for a short press and the current flag otherwise; nothing is invoked once a binding has fired |
| `HandlerModel.ShortPressReportsFalse` | src/KeyPressHandler.ts:70-74 | every callback invoked by a key-up shorter than the threshold receives `false` |
| `HandlerModel.TimeoutReportsTrue` | src/KeyPressHandler.ts:46-48 | every callback invoked by a firing timer receives `true` |
| `HandlerModel.KeyupLeavesKeyIdle` | src/KeyPressHandler.ts:63-78 | in a valid state, after a key-up the key is not active, has no start time, and no timer fire for it is possible |
| `HandlerModel.StepKeepsInv` | src/KeyPressHandler.ts:35-98 | every event keeps the invariant |
| `HandlerModel.RunKeepsInv` | src/KeyPressHandler.ts:11-98 | every state reached by a valid sequence of events satisfies the invariant |
| `HandlerModel.StepFiresAtMostOnce` | src/KeyPressHandler.ts:74-88 | one event appends at most one invocation, and none while the fired flag is up; an invocation raises the flag unless the active set empties; the flag falls only on a key-up that empties the active set |
| `HandlerModel.AtMostOneInvocationPerEpisode` | src/KeyPressHandler.ts:46-89 | between two moments with no key held, at most one callback is invoked, and none if a binding had already fired |
| `HandlerModel.IdleHandlerIsArmed` | src/KeyPressHandler.ts:79 | in a valid state with no key held, the fired flag is down |
| `HandlerModel.OnlyKeydownArmsTimer` | src/KeyPressHandler.ts:44-51 | only a key-down of that key arms a timer for it, so after release no timer can fire until it is pressed again |
| `HandlerModel.ReverseOrderScenario` | src/KeyPressHandler.ts:55-90 | a binding for a, b pressed as "B" then "a": the first short release fires it once with `false`, the second release fires nothing, and the handler is armed again |
| `Handler.KeyPressHandler.constructor` | src/KeyPressHandler.ts:11-19 | the new object is the initial state and satisfies the invariant |
| `Handler.KeyPressHandler.AddKeyBinding` | src/KeyPressHandler.ts:21-23 | the new state is `HandlerModel.AddKeyBinding` of the old one, and the invariant is kept |
| `Handler.KeyPressHandler.HandleKeydown` | src/KeyPressHandler.ts:35-53 | the new state is `HandlerModel.HandleKeydown` of the old one; a repeat key-down leaves the object as it was; the invariant is kept |
| `Handler.KeyPressHandler.LongPressTimeout` | src/KeyPressHandler.ts:46-50 | the timer body, run only while its handle is pending, gives `HandlerModel.LongPressTimeout` of the old state and keeps the invariant |
| `Handler.KeyPressHandler.HandleKeyup` | src/KeyPressHandler.ts:55-81 | the new state is `HandlerModel.HandleKeyup` of the old one; a key without a start time leaves the object as it was; the invariant is kept |
| `Handler.KeyPressHandler.Cleanup` | src/KeyPressHandler.ts:76-79 | the clean-up gives `HandlerModel.ReleaseKey` of the old state |
| `Handler.KeyPressHandler.CheckKeyCombination` | src/KeyPressHandler.ts:83-90 | the new state is `HandlerModel.CheckKeyCombination` of the old one |
| `Handler.KeyPressHandler.LongPressTresholdSeconds` | src/KeyPressHandler.ts:92-94 | the getter times 1000 is the millisecond field |
| `Handler.KeyPressHandler.SetLongPressTresholdSeconds` | src/KeyPressHandler.ts:96-98 | after setting `s` seconds the getter reads `s`, and nothing but the threshold changes |
| `Handler.KeyPressHandler.SetLongPressTresholdMilliSeconds` | src/KeyPressHandler.ts:9 | after assigning the public field, the getter reads ms/1000, and nothing but the threshold changes |
| `Handler.KeyPressHandler.ActiveKeysCount` | src/KeyPressHandler.ts:100-102 | the count is the size of the active key set |

## Left out

- `init` and `destroy` (src/KeyPressHandler.ts:25-33) only attach and detach `window` listeners. `destroy` passes freshly bound functions, so it detaches nothing, and it cancels no timers. None of this is modelled.
- `event.preventDefault()` is a browser side effect and is not modelled.
- The model has no clock. `setTimeout` scheduling becomes the explicit `Fire` event, which may occur at any point while the key's timer is pending, so the model does not tie a timer's firing time to `delayMs`. A key-up after the threshold but before its timer has fired is allowed, as in the browser.
- Timestamps and the threshold are real numbers: IEEE double rounding, of `seconds * 1000` for example, is not modelled.
- `KeyCanon.ToLower`: only ASCII letters are folded; the Unicode case mapping of `toLowerCase` is not modelled.
- `KeyCanon.Sort`: keys are ordered by Unicode code point. JavaScript's default sort compares UTF-16 code units, which differs only for characters outside the Basic Multilingual Plane. Every property proved depends only on the order being a total order.
- Callbacks are opaque ids. A callback that calls back into the handler while running is not modelled, nor is one that throws.
- `keys.sort()` sorts the caller's array in place; the model returns a sorted copy and leaves the caller's list alone.
- The clean-up of a key-up (src/KeyPressHandler.ts:76-79) is a private method `Cleanup` of the class, where the source writes it inline in `handleKeyup`.
