/** The key-press handler as an object. Its fields are the handler's own
    (the active keys, the start times, the pending timers, the binding
    table, the two flags and the public threshold), plus the source of fresh
    timer handles and the log of callback invocations. Every method updates
    the fields step by step as the handler does, and promises that the new
    state is the one `HandlerModel` gives for the event; the properties proved
    there therefore hold of the object.
 */
module Handler {
  import opened KeyCanon
  import M = HandlerModel

  class KeyPressHandler {
    var keyHasFired: bool
    var longPress: bool
    var keyStartTime: map<string, real>
    var activeKeys: seq<string>
    var longPressTimeouts: map<string, M.Timer>
    var keyBindings: map<seq<string>, M.CallbackId>
    var longPressTresholdMilliSeconds: real
    var nextHandle: nat
    var invocations: seq<M.Invocation>

    /** The object's state as a value. */
    ghost function Model(): M.State
      reads this
    {
      M.State(keyHasFired, longPress, keyStartTime, activeKeys, longPressTimeouts,
              keyBindings, longPressTresholdMilliSeconds, nextHandle, invocations)
    }

    ghost predicate Valid()
      reads this
    {
      M.Inv(Model())
    }

    constructor ()
      ensures Valid()
      ensures Model() == M.Initial()
    {
      keyHasFired := false;
      longPress := false;
      keyStartTime := map[];
      activeKeys := [];
      longPressTimeouts := map[];
      keyBindings := map[];
      longPressTresholdMilliSeconds := M.DefaultThresholdMs;
      nextHandle := 0;
      invocations := [];
    }

    method AddKeyBinding(keys: seq<string>, func: M.CallbackId)
      requires Valid()
      modifies this
      ensures Valid()
      ensures Model() == M.AddKeyBinding(old(Model()), keys, func)
    {
      keyBindings := keyBindings[Sort(keys) := func];
      M.AddKeyBindingKeepsInv(old(Model()), keys, func);
    }

    method HandleKeydown(eventKey: string, timeStamp: real)
      requires Valid()
      modifies this
      ensures Valid()
      ensures Model() == M.HandleKeydown(old(Model()), eventKey, timeStamp)
      ensures ToLower(eventKey) in old(activeKeys) ==> Model() == old(Model())
    {
      var key := ToLower(eventKey);
      if key !in activeKeys {
        activeKeys := activeKeys + [key];
        keyStartTime := keyStartTime[key := timeStamp];
        // setTimeout hands out a fresh handle for the long-press timer
        var handle := nextHandle;
        nextHandle := nextHandle + 1;
        longPressTimeouts := longPressTimeouts[key := M.Timer(handle, longPressTresholdMilliSeconds)];
      }
      M.KeydownKeepsInv(old(Model()), eventKey, timeStamp);
    }

    /** The body of the timer `HandleKeydown` arms for `key`, run when it fires. */
    method LongPressTimeout(key: string)
      requires Valid()
      requires key in longPressTimeouts
      modifies this
      ensures Valid()
      ensures Model() == M.LongPressTimeout(old(Model()), key)
    {
      longPress := true;
      ghost var s1 := Model();
      if !keyHasFired {
        CheckKeyCombination();
      }
      assert Model() == M.EvaluateUnlessFired(s1);
      longPressTimeouts := longPressTimeouts - {key};
      M.TimeoutKeepsInv(old(Model()), key);
    }

    method HandleKeyup(eventKey: string, timeStamp: real)
      requires Valid()
      modifies this
      ensures Valid()
      ensures Model() == M.HandleKeyup(old(Model()), eventKey, timeStamp)
      ensures ToLower(eventKey) !in old(keyStartTime) ==> Model() == old(Model())
    {
      var key := ToLower(eventKey);
      var startTime := if key in keyStartTime then keyStartTime[key] else 0.0;

      if key in keyStartTime {
        var duration := timeStamp - startTime;

        // cancel the pending timer, if any, and forget its handle
        if key in longPressTimeouts {
          longPressTimeouts := longPressTimeouts - {key};
        }

        if duration < longPressTresholdMilliSeconds {
          longPress := false;
        }
        ghost var ended := Model();
        assert ended == M.EndPress(old(Model()), key, timeStamp);

        if !keyHasFired {
          CheckKeyCombination();
        }
        ghost var evaluated := Model();
        assert evaluated == M.EvaluateUnlessFired(ended);

        Cleanup(key);
      }
      M.KeyupKeepsInv(old(Model()), eventKey, timeStamp);
    }

    /** The end of a key-up: forget the released key and, with no key left,
        re-arm the handler. */
    method Cleanup(key: string)
      modifies this
      ensures Model() == M.ReleaseKey(old(Model()), key)
    {
      keyStartTime := keyStartTime - {key};
      activeKeys := Remove(activeKeys, key);
      if |activeKeys| == 0 {
        keyHasFired := false;
      }
    }

    /** Evaluation of the held combination. */
    method CheckKeyCombination()
      modifies this
      ensures Model() == M.CheckKeyCombination(old(Model()))
    {
      var activeKeysArray := Sort(activeKeys);
      if activeKeysArray in keyBindings {
        var action := keyBindings[activeKeysArray];
        keyHasFired := true;
        invocations := invocations + [M.Invocation(action, longPress)];
      }
    }

    /** The threshold in seconds. */
    function LongPressTresholdSeconds(): (seconds: real)
      reads this
      ensures seconds * 1000.0 == longPressTresholdMilliSeconds
    {
      M.SecondsOf(longPressTresholdMilliSeconds)
    }

    /** Assigning the threshold in seconds. */
    method SetLongPressTresholdSeconds(seconds: real)
      requires Valid()
      modifies this
      ensures Valid()
      ensures Model() == M.SetThresholdSeconds(old(Model()), seconds)
      ensures LongPressTresholdSeconds() == seconds
    {
      longPressTresholdMilliSeconds := M.MillisOf(seconds);
    }

    /** Assigning the public threshold field in milliseconds. */
    method SetLongPressTresholdMilliSeconds(ms: real)
      requires Valid()
      modifies this
      ensures Valid()
      ensures Model() == M.SetThresholdMs(old(Model()), ms)
      ensures LongPressTresholdSeconds() == ms / 1000.0
    {
      longPressTresholdMilliSeconds := ms;
    }

    /** The number of keys held, the size of the active set. */
    function ActiveKeysCount(): (n: nat)
      reads this
      requires Valid()
      ensures n == |Elems(activeKeys)|
    {
      NoDupCardinality(activeKeys);
      |activeKeys|
    }
  }
}
