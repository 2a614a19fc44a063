/** The key-press handler as a value: its state as a record, and one
    transition function for each thing that can happen to it (a key goes
    down, a key goes up, a long-press timer fires, a binding is registered,
    the threshold is set). Callbacks are opaque ids; invoking one appends an
    `Invocation` to the state's log, so the log is everything the handler
    has told its clients. A pending `setTimeout` is a `Timer` in the state,
    and its firing is the explicit `Fire` event, which can happen only while
    the timer is still pending.
 */
module HandlerModel {
  import opened KeyCanon

  /** A registered callback, identified by an opaque id. */
  type CallbackId = nat

  datatype Option<T> = None | Some(value: T)

  /** One call of a bound callback with its `wasLongPress` argument. */
  datatype Invocation = Invocation(callback: CallbackId, wasLongPress: bool)

  /** A pending long-press timer: the handle `setTimeout` returned for it and
      the delay, in milliseconds, it was armed with. */
  datatype Timer = Timer(handle: nat, delayMs: real)

  /** The handler's fields, plus the source of fresh timer handles and the
      log of callback invocations. */
  datatype State = State(
    keyHasFired: bool,
    longPress: bool,
    keyStartTime: map<string, real>,
    activeKeys: seq<string>,                  // an insertion-ordered set
    longPressTimeouts: map<string, Timer>,
    keyBindings: map<seq<string>, CallbackId>, // keyed by the sorted key list
    thresholdMs: real,
    nextHandle: nat,
    invocations: seq<Invocation>)

  const DefaultThresholdMs: real := 500.0

  // ---------------------------------------------------------------------------
  // The threshold in seconds
  // ---------------------------------------------------------------------------

  /** The seconds view of a millisecond threshold. */
  function SecondsOf(ms: real): (seconds: real)
    ensures seconds * 1000.0 == ms
  {
    ms / 1000.0
  }

  /** The millisecond threshold that a seconds value sets. */
  function MillisOf(seconds: real): (ms: real)
    ensures SecondsOf(ms) == seconds
    ensures ms / 1000.0 == seconds
  {
    seconds * 1000.0
  }

  /** Reading the seconds view and writing it back leaves the milliseconds as they were. */
  lemma MillisSecondsRoundTrip(ms: real)
    ensures MillisOf(SecondsOf(ms)) == ms
  {
  }

  // ---------------------------------------------------------------------------
  // The invariant
  // ---------------------------------------------------------------------------

  /** What every reachable state satisfies: the active keys are a set, exactly
      the active keys have a start time, only active keys have a pending
      timer, the fired flag is only up while some key is held, and every
      pending timer's handle was handed out before. */
  predicate Inv(s: State) {
    && NoDup(s.activeKeys)
    && s.keyStartTime.Keys == Elems(s.activeKeys)
    && s.longPressTimeouts.Keys <= Elems(s.activeKeys)
    && (s.keyHasFired ==> s.activeKeys != [])
    && (forall k :: k in s.longPressTimeouts ==> s.longPressTimeouts[k].handle < s.nextHandle)
  }

  /** The state of a freshly constructed handler. */
  function Initial(): (s: State)
    ensures Inv(s)
    ensures s.activeKeys == [] && s.keyBindings == map[] && s.invocations == []
    ensures SecondsOf(s.thresholdMs) == 0.5
    ensures !s.longPress && !s.keyHasFired && s.thresholdMs == DefaultThresholdMs
  {
    State(false, false, map[], [], map[], map[], DefaultThresholdMs, 0, [])
  }

  // ---------------------------------------------------------------------------
  // Bindings
  // ---------------------------------------------------------------------------

  /** The callback bound to the combination of the given keys, if any. */
  function Lookup(bindings: map<seq<string>, CallbackId>, keys: seq<string>): Option<CallbackId> {
    if Sort(keys) in bindings then Some(bindings[Sort(keys)]) else None
  }

  /** Registers `callback` under the sorted list of `keys`, replacing any
      callback bound to the same keys; nothing but the table changes. */
  function AddKeyBinding(s: State, keys: seq<string>, callback: CallbackId): (r: State)
    ensures r == s.(keyBindings := r.keyBindings)
    ensures Lookup(r.keyBindings, keys) == Some(callback)
    ensures forall k :: k in s.keyBindings && k != Sort(keys) ==> k in r.keyBindings && r.keyBindings[k] == s.keyBindings[k]
    ensures r.keyBindings.Keys == s.keyBindings.Keys + {Sort(keys)}
  {
    s.(keyBindings := s.keyBindings[Sort(keys) := callback])
  }

  // ---------------------------------------------------------------------------
  // Evaluation
  // ---------------------------------------------------------------------------

  /** The invocations an evaluation adds: the callback bound to exactly the
      active keys, called with the current long-press flag, or nothing. */
  function Evaluated(s: State): seq<Invocation> {
    match Lookup(s.keyBindings, s.activeKeys)
    case Some(cb) => [Invocation(cb, s.longPress)]
    case None => []
  }

  /** Looks up the sorted active keys; on a match raises the fired flag and
      calls the callback with the long-press flag. An unmatched combination
      changes nothing. */
  function CheckKeyCombination(s: State): (r: State)
    ensures Lookup(s.keyBindings, s.activeKeys).None? ==> r == s
    ensures r.invocations == s.invocations + Evaluated(s)
    ensures r.keyHasFired == (s.keyHasFired || Lookup(s.keyBindings, s.activeKeys).Some?)
    ensures r == s.(keyHasFired := r.keyHasFired, invocations := r.invocations)
  {
    var activeKeysArray := Sort(s.activeKeys);
    if activeKeysArray in s.keyBindings then
      s.(keyHasFired := true,
         invocations := s.invocations + [Invocation(s.keyBindings[activeKeysArray], s.longPress)])
    else
      s
  }

  /** The guard both a key-up and a timer put around evaluation: once a
      binding has fired, nothing is evaluated until every key is up. */
  function EvaluateUnlessFired(s: State): (r: State)
    ensures s.keyHasFired ==> r == s
    ensures r.invocations == s.invocations + (if s.keyHasFired then [] else Evaluated(s))
    ensures r.keyHasFired == (s.keyHasFired || Lookup(s.keyBindings, s.activeKeys).Some?)
    ensures r == s.(keyHasFired := r.keyHasFired, invocations := r.invocations)
  {
    if !s.keyHasFired then CheckKeyCombination(s) else s
  }

  // ---------------------------------------------------------------------------
  // Events
  // ---------------------------------------------------------------------------

  /** Key-down: a key not yet held becomes active, gets its start time and a
      long-press timer armed with the current threshold. A key already held
      changes nothing (a key-repeat event). No callback runs. */
  function HandleKeydown(s: State, eventKey: string, timeStamp: real): (r: State)
    ensures ToLower(eventKey) in s.activeKeys ==> r == s
    ensures ToLower(eventKey) !in s.activeKeys ==>
              && r.activeKeys == s.activeKeys + [ToLower(eventKey)]
              && r.keyStartTime == s.keyStartTime[ToLower(eventKey) := timeStamp]
              && r.longPressTimeouts == s.longPressTimeouts[ToLower(eventKey) := Timer(s.nextHandle, s.thresholdMs)]
              && r.nextHandle == s.nextHandle + 1
    ensures r.invocations == s.invocations
    ensures r.keyHasFired == s.keyHasFired && r.longPress == s.longPress
    ensures r.keyBindings == s.keyBindings && r.thresholdMs == s.thresholdMs
  {
    var key := ToLower(eventKey);
    if key !in s.activeKeys then
      s.(activeKeys := s.activeKeys + [key],
         keyStartTime := s.keyStartTime[key := timeStamp],
         longPressTimeouts := s.longPressTimeouts[key := Timer(s.nextHandle, s.thresholdMs)],
         nextHandle := s.nextHandle + 1)
    else
      s
  }

  /** The body of the long-press timer armed for `key`: raise the long-press
      flag, evaluate unless a binding already fired, and drop the handle. */
  function LongPressTimeout(s: State, key: string): (r: State)
    requires key in s.longPressTimeouts
    ensures r.longPress
    ensures key !in r.longPressTimeouts
    ensures r.longPressTimeouts == s.longPressTimeouts - {key}
    ensures r.invocations == s.invocations + (if s.keyHasFired then [] else Evaluated(s.(longPress := true)))
    ensures r.keyHasFired == (s.keyHasFired || Lookup(s.keyBindings, s.activeKeys).Some?)
    ensures r.activeKeys == s.activeKeys && r.keyStartTime == s.keyStartTime
    ensures r.keyBindings == s.keyBindings && r.thresholdMs == s.thresholdMs && r.nextHandle == s.nextHandle
  {
    var s2 := EvaluateUnlessFired(s.(longPress := true));
    s2.(longPressTimeouts := s2.longPressTimeouts - {key})
  }

  /** Whether a release at `timeStamp` of a key pressed at `startTime` is
      shorter than the threshold. */
  predicate IsShortPress(startTime: real, timeStamp: real, thresholdMs: real) {
    timeStamp - startTime < thresholdMs
  }

  /** Key-up: for a key with a start time, cancel its pending timer, lower the
      long-press flag if the press was short, evaluate (with the key still
      active) unless a binding already fired, then release the key and, when
      no key is left, lower the fired flag. A key without a start time
      changes nothing. */
  function HandleKeyup(s: State, eventKey: string, timeStamp: real): (r: State)
    ensures ToLower(eventKey) !in s.keyStartTime ==> r == s
    ensures r.keyBindings == s.keyBindings && r.thresholdMs == s.thresholdMs && r.nextHandle == s.nextHandle
  {
    var key := ToLower(eventKey);
    if key in s.keyStartTime then
      ReleaseKey(EvaluateUnlessFired(EndPress(s, key, timeStamp)), key)
    else
      s
  }

  /** The first half of a key-up for a held key: cancel the key's pending
      timer and, for a press shorter than the threshold, lower the long-press
      flag. */
  function EndPress(s: State, key: string, timeStamp: real): (r: State)
    requires key in s.keyStartTime
    ensures key !in r.longPressTimeouts
    ensures r.longPress == (if IsShortPress(s.keyStartTime[key], timeStamp, s.thresholdMs) then false else s.longPress)
    ensures r == s.(longPressTimeouts := s.longPressTimeouts - {key}, longPress := r.longPress)
  {
    var duration := timeStamp - s.keyStartTime[key];
    var s1 := if key in s.longPressTimeouts then s.(longPressTimeouts := s.longPressTimeouts - {key}) else s;
    if duration < s1.thresholdMs then s1.(longPress := false) else s1
  }

  /** The clean-up ending a key-up: forget the key's start time, remove it
      from the active set, and lower the fired flag when no key is left. */
  function ReleaseKey(s: State, key: string): (r: State)
    ensures key !in r.keyStartTime && key !in r.activeKeys
    ensures r.activeKeys == [] ==> !r.keyHasFired
    ensures r.activeKeys != [] ==> r.keyHasFired == s.keyHasFired
    ensures r == s.(keyStartTime := s.keyStartTime - {key}, activeKeys := Remove(s.activeKeys, key),
                    keyHasFired := r.keyHasFired)
  {
    var s4 := s.(keyStartTime := s.keyStartTime - {key}, activeKeys := Remove(s.activeKeys, key));
    if |s4.activeKeys| == 0 then s4.(keyHasFired := false) else s4
  }

  /** Assigning the public millisecond threshold. */
  function SetThresholdMs(s: State, ms: real): (r: State)
    ensures r.thresholdMs == ms && SecondsOf(r.thresholdMs) == ms / 1000.0
    ensures r == s.(thresholdMs := ms)
  {
    s.(thresholdMs := ms)
  }

  /** Assigning the seconds view of the threshold. */
  function SetThresholdSeconds(s: State, seconds: real): (r: State)
    ensures SecondsOf(r.thresholdMs) == seconds
    ensures r == s.(thresholdMs := r.thresholdMs)
  {
    s.(thresholdMs := MillisOf(seconds))
  }

  // ---------------------------------------------------------------------------
  // Every event keeps the invariant
  // ---------------------------------------------------------------------------

  lemma KeydownKeepsInv(s: State, eventKey: string, timeStamp: real)
    requires Inv(s)
    ensures Inv(HandleKeydown(s, eventKey, timeStamp))
  {
    var key := ToLower(eventKey);
    if key !in s.activeKeys {
      var r := HandleKeydown(s, eventKey, timeStamp);
      assert Elems(r.activeKeys) == Elems(s.activeKeys) + {key} by {
        assert forall x :: x in r.activeKeys <==> x in s.activeKeys || x == key;
      }
      assert NoDup(r.activeKeys) by {
        forall i, j | 0 <= i < j < |r.activeKeys| ensures r.activeKeys[i] != r.activeKeys[j] {
          if j == |s.activeKeys| {
            assert r.activeKeys[i] == s.activeKeys[i];
          }
        }
      }
    }
  }

  /** A key-up of a held key releases it: no start time, not active, no
      pending timer, the other keys kept in their order, and the fired flag
      down once no key is left. */
  lemma KeyupReleasesKey(s: State, eventKey: string, timeStamp: real)
    requires ToLower(eventKey) in s.keyStartTime
    ensures var key := ToLower(eventKey);
            var r := HandleKeyup(s, eventKey, timeStamp);
            && key !in r.keyStartTime
            && key !in r.activeKeys
            && key !in r.longPressTimeouts
            && r.activeKeys == Remove(s.activeKeys, key)
            && r.keyStartTime == s.keyStartTime - {key}
            && r.longPressTimeouts == s.longPressTimeouts - {key}
            && (r.activeKeys == [] ==> !r.keyHasFired)
  {
    var key := ToLower(eventKey);
    var s2 := EndPress(s, key, timeStamp);
    var s3 := EvaluateUnlessFired(s2);
    assert HandleKeyup(s, eventKey, timeStamp) == ReleaseKey(s3, key);
    assert s3.activeKeys == s.activeKeys && s3.keyStartTime == s.keyStartTime;
    assert s3.longPressTimeouts == s.longPressTimeouts - {key};
  }

  lemma EvaluateKeepsInv(s: State)
    requires Inv(s) && s.activeKeys != []
    ensures Inv(EvaluateUnlessFired(s))
  {
    var r := EvaluateUnlessFired(s);
    assert r.activeKeys == s.activeKeys && r.keyStartTime == s.keyStartTime;
    assert r.longPressTimeouts == s.longPressTimeouts && r.nextHandle == s.nextHandle;
  }

  lemma ReleaseKeepsInv(s: State, key: string)
    requires Inv(s) && key !in s.longPressTimeouts
    ensures Inv(ReleaseKey(s, key))
  {
    var r := ReleaseKey(s, key);
    assert r.longPressTimeouts == s.longPressTimeouts && r.nextHandle == s.nextHandle;
    assert Elems(r.activeKeys) == Elems(s.activeKeys) - {key};
  }

  lemma KeyupKeepsInv(s: State, eventKey: string, timeStamp: real)
    requires Inv(s)
    ensures Inv(HandleKeyup(s, eventKey, timeStamp))
  {
    var key := ToLower(eventKey);
    if key in s.keyStartTime {
      var s2 := EndPress(s, key, timeStamp);
      assert Inv(s2) by {
        assert s2.activeKeys == s.activeKeys && s2.keyStartTime == s.keyStartTime && s2.keyHasFired == s.keyHasFired;
        assert s2.longPressTimeouts == s.longPressTimeouts - {key} && s2.nextHandle == s.nextHandle;
      }
      assert s2.activeKeys != [] by {
        assert key in Elems(s.activeKeys);
      }
      EvaluateKeepsInv(s2);
      var s3 := EvaluateUnlessFired(s2);
      assert key !in s3.longPressTimeouts;
      ReleaseKeepsInv(s3, key);
    }
  }

  lemma TimeoutKeepsInv(s: State, key: string)
    requires Inv(s) && key in s.longPressTimeouts
    ensures Inv(LongPressTimeout(s, key))
  {
    assert key in Elems(s.activeKeys);
  }

  lemma AddKeyBindingKeepsInv(s: State, keys: seq<string>, callback: CallbackId)
    requires Inv(s)
    ensures Inv(AddKeyBinding(s, keys, callback))
  {
  }

  // ---------------------------------------------------------------------------
  // Order-independent bindings
  // ---------------------------------------------------------------------------

  /** Registering any permutation of the same keys writes the same entry. */
  lemma AddKeyBindingIgnoresOrder(s: State, keys: seq<string>, reordered: seq<string>, callback: CallbackId)
    requires multiset(keys) == multiset(reordered)
    ensures AddKeyBinding(s, keys, callback) == AddKeyBinding(s, reordered, callback)
  {
    SortCanonical(keys, reordered);
  }

  /** Of two registrations of the same keys, in whatever order, the last wins. */
  lemma LastRegistrationWins(s: State, keys: seq<string>, reordered: seq<string>, first: CallbackId, last: CallbackId)
    requires multiset(keys) == multiset(reordered)
    ensures AddKeyBinding(AddKeyBinding(s, keys, first), reordered, last) == AddKeyBinding(s, reordered, last)
  {
    SortCanonical(keys, reordered);
  }

  /** After registering `keys`, a lookup of some held keys finds the new
      callback exactly when they are a permutation of `keys`, and otherwise
      whatever it found before. */
  lemma LookupAfterAddKeyBinding(s: State, keys: seq<string>, callback: CallbackId, held: seq<string>)
    ensures Lookup(AddKeyBinding(s, keys, callback).keyBindings, held) ==
              if multiset(held) == multiset(keys) then Some(callback) else Lookup(s.keyBindings, held)
  {
    SortCanonical(held, keys);
  }

  /** When the held keys form a set (as the active keys do), a registration
      matches them exactly when it lists each of them once and nothing else.
      So a list with a repeated key never matches. */
  lemma RegisteredKeysMatchHeldSet(keys: seq<string>, held: seq<string>)
    requires NoDup(held)
    ensures Sort(keys) == Sort(held) <==> NoDup(keys) && Elems(keys) == Elems(held)
  {
    SortCanonical(keys, held);
    SameMultisetAsSet(keys, held);
  }

  // ---------------------------------------------------------------------------
  // What a key-up and a timer pass to the callback
  // ---------------------------------------------------------------------------

  /** A key-up of a held key evaluates the combination with that key still in
      it, and passes `false` when the press was shorter than the threshold
      (otherwise the long-press flag as it stood). */
  lemma KeyupEvaluatesBeforeRelease(s: State, eventKey: string, timeStamp: real)
    requires ToLower(eventKey) in s.keyStartTime
    ensures var key := ToLower(eventKey);
            var wasLong := if IsShortPress(s.keyStartTime[key], timeStamp, s.thresholdMs) then false else s.longPress;
            HandleKeyup(s, eventKey, timeStamp).invocations ==
              s.invocations + (if s.keyHasFired then [] else Evaluated(s.(longPress := wasLong)))
  {
  }

  /** A short press reports `false` to the callback it triggers. */
  lemma ShortPressReportsFalse(s: State, eventKey: string, timeStamp: real)
    requires ToLower(eventKey) in s.keyStartTime
    requires IsShortPress(s.keyStartTime[ToLower(eventKey)], timeStamp, s.thresholdMs)
    ensures var r := HandleKeyup(s, eventKey, timeStamp);
            forall i :: |s.invocations| <= i < |r.invocations| ==> !r.invocations[i].wasLongPress
  {
    KeyupEvaluatesBeforeRelease(s, eventKey, timeStamp);
  }

  /** A firing timer reports `true` to the callback it triggers. */
  lemma TimeoutReportsTrue(s: State, key: string)
    requires key in s.longPressTimeouts
    ensures var r := LongPressTimeout(s, key);
            forall i :: |s.invocations| <= i < |r.invocations| ==> r.invocations[i].wasLongPress
  {
  }

  /** After a key-up the released key is idle: not active, no start time and
      no pending timer, so no timer can fire for it. */
  lemma KeyupLeavesKeyIdle(s: State, eventKey: string, timeStamp: real)
    requires Inv(s)
    ensures var key := ToLower(eventKey);
            var r := HandleKeyup(s, eventKey, timeStamp);
            key !in r.activeKeys && key !in r.keyStartTime && !Enabled(r, Fire(key))
  {
  }

  // ---------------------------------------------------------------------------
  // Events and traces
  // ---------------------------------------------------------------------------

  /** Everything that can happen to a handler. `Fire` is the long-press timer
      of a (lower-cased) key running out. */
  datatype Event =
    | Down(key: string, timeStamp: real)
    | Up(key: string, timeStamp: real)
    | Fire(key: string)
    | Bind(keys: seq<string>, callback: CallbackId)
    | SetMs(ms: real)
    | SetSeconds(seconds: real)

  /** A timer can fire only while it is pending: a key-up cancels it, and it
      removes itself when it fires. */
  predicate Enabled(s: State, e: Event) {
    e.Fire? ==> e.key in s.longPressTimeouts
  }

  function Step(s: State, e: Event): State
    requires Enabled(s, e)
  {
    match e
    case Down(key, t) => HandleKeydown(s, key, t)
    case Up(key, t) => HandleKeyup(s, key, t)
    case Fire(key) => LongPressTimeout(s, key)
    case Bind(keys, cb) => AddKeyBinding(s, keys, cb)
    case SetMs(ms) => SetThresholdMs(s, ms)
    case SetSeconds(seconds) => SetThresholdSeconds(s, seconds)
  }

  predicate ValidTrace(s: State, es: seq<Event>)
    decreases |es|
  {
    es == [] || (Enabled(s, es[0]) && ValidTrace(Step(s, es[0]), es[1..]))
  }

  function Run(s: State, es: seq<Event>): State
    requires ValidTrace(s, es)
    decreases |es|
  {
    if es == [] then s else Run(Step(s, es[0]), es[1..])
  }

  lemma StepKeepsInv(s: State, e: Event)
    requires Inv(s) && Enabled(s, e)
    ensures Inv(Step(s, e))
  {
    match e
    case Down(key, t) => KeydownKeepsInv(s, key, t);
    case Up(key, t) => KeyupKeepsInv(s, key, t);
    case Fire(key) => TimeoutKeepsInv(s, key);
    case Bind(keys, cb) => AddKeyBindingKeepsInv(s, keys, cb);
    case SetMs(ms) =>
    case SetSeconds(seconds) =>
  }

  /** Every state reachable from the initial one satisfies the invariant. */
  lemma {:induction false} RunKeepsInv(s: State, es: seq<Event>)
    requires Inv(s) && ValidTrace(s, es)
    ensures Inv(Run(s, es))
    decreases |es|
  {
    if es != [] {
      StepKeepsInv(s, es[0]);
      RunKeepsInv(Step(s, es[0]), es[1..]);
    }
  }

  /** What one event does to the log and the fired flag: it appends at most
      one invocation, none while a binding has already fired; a new
      invocation raises the flag unless the active set has just emptied; and
      the flag falls only when the active set empties, on a key-up. */
  lemma StepFiresAtMostOnce(s: State, e: Event)
    requires Enabled(s, e)
    ensures var r := Step(s, e);
            && s.invocations <= r.invocations
            && |r.invocations| <= |s.invocations| + 1
            && (s.keyHasFired ==> r.invocations == s.invocations)
            && (|r.invocations| > |s.invocations| && r.activeKeys != [] ==> r.keyHasFired)
            && (s.keyHasFired && !r.keyHasFired ==> e.Up? && r.activeKeys == [])
  {
    match e
    case Down(key, t) =>
    case Up(key, t) =>
    case Fire(key) =>
    case Bind(keys, cb) =>
    case SetMs(ms) =>
    case SetSeconds(seconds) =>
  }

  /** No step but possibly the last one leaves the active set empty: the
      events of one hold episode. */
  predicate HeldThroughout(s: State, es: seq<Event>)
    requires ValidTrace(s, es)
    decreases |es|
  {
    |es| <= 1 || (Step(s, es[0]).activeKeys != [] && HeldThroughout(Step(s, es[0]), es[1..]))
  }

  /** Between two moments at which no key is held, at most one callback is
      invoked, and none at all once a binding has fired. */
  lemma {:induction false} AtMostOneInvocationPerEpisode(s: State, es: seq<Event>)
    requires ValidTrace(s, es) && HeldThroughout(s, es)
    ensures s.invocations <= Run(s, es).invocations
    ensures |Run(s, es).invocations| <= |s.invocations| + (if s.keyHasFired then 0 else 1)
    decreases |es|
  {
    if es != [] {
      StepFiresAtMostOnce(s, es[0]);
      var s' := Step(s, es[0]);
      AtMostOneInvocationPerEpisode(s', es[1..]);
    }
  }

  /** An episode starts from a state with nothing held, where the fired flag is down. */
  lemma IdleHandlerIsArmed(s: State)
    requires Inv(s) && s.activeKeys == []
    ensures !s.keyHasFired
  {
  }

  /** Only a key-down arms a timer for a key, so after a release no timer can
      fire for the key until it is pressed again. */
  lemma OnlyKeydownArmsTimer(s: State, e: Event, key: string)
    requires Enabled(s, e)
    requires key !in s.longPressTimeouts && key in Step(s, e).longPressTimeouts
    ensures e.Down? && ToLower(e.key) == key
  {
  }

  // ---------------------------------------------------------------------------
  // A scenario
  // ---------------------------------------------------------------------------

  lemma ScenarioFacts()
    ensures ToLower("B") == "b" && ToLower("a") == "a" && ToLower("b") == "b"
    ensures Sort(["a", "b"]) == ["a", "b"] && Sort(["b", "a"]) == ["a", "b"] && Sort(["b"]) == ["b"]
    ensures Remove(["b", "a"], "a") == ["b"] && Remove(["b"], "b") == []
  {
  }

  /** Registering a, b and pressing B then a holds both keys, unfired. */
  lemma ScenarioPress()
    ensures var s := HandleKeydown(HandleKeydown(AddKeyBinding(Initial(), ["a", "b"], 7), "B", 0.0), "a", 10.0);
            && s.activeKeys == ["b", "a"] && s.keyStartTime == map["b" := 0.0, "a" := 10.0]
            && s.keyBindings == map[["a", "b"] := 7] && s.thresholdMs == 500.0
            && s.invocations == [] && !s.keyHasFired
  {
    ScenarioFacts();
  }

  /** Releasing a after 90 ms fires the binding with `false`. */
  lemma ScenarioReleaseFirst(s: State)
    requires s.activeKeys == ["b", "a"] && s.keyStartTime == map["b" := 0.0, "a" := 10.0]
    requires s.keyBindings == map[["a", "b"] := 7] && s.thresholdMs == 500.0
    requires s.invocations == [] && !s.keyHasFired
    ensures var r := HandleKeyup(s, "a", 100.0);
            && r.activeKeys == ["b"] && r.keyStartTime == map["b" := 0.0]
            && r.invocations == [Invocation(7, false)] && r.keyHasFired
  {
    ScenarioFacts();
    assert Lookup(s.keyBindings, s.activeKeys) == Some(7);
    assert s.keyStartTime - {"a"} == map["b" := 0.0];
  }

  /** Releasing b then fires nothing and re-arms the handler. */
  lemma ScenarioReleaseLast(s: State)
    requires s.activeKeys == ["b"] && s.keyStartTime == map["b" := 0.0]
    requires s.invocations == [Invocation(7, false)] && s.keyHasFired
    ensures var r := HandleKeyup(s, "b", 120.0);
            && r.invocations == [Invocation(7, false)]
            && r.activeKeys == [] && !r.keyHasFired
  {
    ScenarioFacts();
  }

  /** A binding registered as a, b matches the keys pressed as B then a: the
      first release fires it once with `false` (a short press), the second
      fires nothing, and with both keys up the handler is armed again. */
  lemma ReverseOrderScenario()
    ensures var s1 := AddKeyBinding(Initial(), ["a", "b"], 7);
            var s2 := HandleKeydown(HandleKeydown(s1, "B", 0.0), "a", 10.0);
            var s3 := HandleKeyup(s2, "a", 100.0);
            var s4 := HandleKeyup(s3, "b", 120.0);
            && s3.invocations == [Invocation(7, false)]
            && s4.invocations == [Invocation(7, false)]
            && s4.activeKeys == [] && !s4.keyHasFired
  {
    var s2 := HandleKeydown(HandleKeydown(AddKeyBinding(Initial(), ["a", "b"], 7), "B", 0.0), "a", 10.0);
    ScenarioPress();
    ScenarioReleaseFirst(s2);
    ScenarioReleaseLast(HandleKeyup(s2, "a", 100.0));
  }
}
