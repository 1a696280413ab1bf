/**
 * The module state of eventManager.js and its four operations.
 *
 * `eventMap` stands for the process-wide JavaScript `Map`.
 * `rootElement` is the delegation root (`null` until `setupEventListeners`
 * runs). `listeners` records the native listeners this module has attached
 * to elements, a view of the DOM that the module only writes.
 */
module Delegation {
  import opened Wrappers
  import opened Registry

  /** `Ok` on a normal return; `RootIsNull` when `removeEvent` reaches `null.removeEventListener` and throws. */
  datatype Status = Ok | RootIsNull

  class EventManager {
    var eventMap: EventMap
    var rootElement: Option<ElementId>
    var listeners: set<Listener>

    /**
     * Every inner table has unique keys, and every listener this module
     * attached is a bubbling (non-capture) one, since those are the only
     * ones it ever adds.
     */
    ghost predicate Valid()
      reads this
    {
      && WellFormed(eventMap)
      && (forall l :: l in listeners ==> !l.capture)
    }

    /** The module as loaded: an empty `eventMap` and `rootElement = null`. */
    constructor ()
      ensures Valid()
      ensures eventMap == map[] && rootElement == None && listeners == {}
    {
      eventMap := map[];
      rootElement := None;
      listeners := {};
    }

    /**
     * `addEvent(element, eventType, handler)`: creates the inner table for a
     * new type, then sets `element` to `handler` in it. It attaches no
     * listener and leaves the root alone.
     */
    method AddEvent(element: Key, eventType: EventType, handler: Handler)
      requires Valid()
      modifies this
      ensures Valid()
      ensures eventMap == Register(old(eventMap), element, eventType, handler)
      ensures rootElement == old(rootElement) && listeners == old(listeners)
      ensures old(NoEmptyTypes(eventMap)) ==> NoEmptyTypes(eventMap)
    {
      ghost var m0 := eventMap;
      if eventType !in eventMap {
        eventMap := eventMap[eventType := []];
      }
      var eventHandlers := eventMap[eventType];
      eventMap := eventMap[eventType := Set(eventHandlers, element, handler)];
      assert eventMap == Register(m0, element, eventType, handler);
    }

    /**
     * `removeEvent(element, eventType, handler)`: matching is by key only,
     * `handler` is ignored. Once the type's table is empty, the root's
     * capture listener for the type is removed and the type is dropped; with
     * no root yet this throws, after the key has already been deleted.
     */
    method RemoveEvent(element: Key, eventType: EventType, handler: Handler) returns (status: Status)
      requires Valid()
      modifies this
      ensures Valid()
      ensures rootElement == old(rootElement)
      ensures status == RootIsNull <==>
        eventType in old(eventMap) && Delete(old(eventMap)[eventType], element) == [] && old(rootElement) == None
      ensures status == Ok ==> eventMap == Unregister(old(eventMap), element, eventType)
      ensures status == RootIsNull ==> eventMap == old(eventMap)[eventType := []]
      ensures listeners ==
        if eventType in old(eventMap) && eventType !in eventMap
        then old(listeners) - {Listener(old(rootElement).value, eventType, true)}
        else old(listeners)
      ensures listeners == old(listeners)
      ensures status == Ok && old(NoEmptyTypes(eventMap)) ==> NoEmptyTypes(eventMap)
    {
      status := Ok;
      if eventType in eventMap {
        ghost var m0 := eventMap;
        var eventHandlers := eventMap[eventType];
        if Has(eventHandlers, element) {
          eventHandlers := Delete(eventHandlers, element);
          eventMap := eventMap[eventType := eventHandlers];
        }
        assert eventHandlers == Delete(m0[eventType], element);
        if |eventHandlers| == 0 {
          if rootElement == None {
            status := RootIsNull;
            assert eventMap == m0[eventType := []];
            return;
          }
          listeners := listeners - {Listener(rootElement.value, eventType, true)};
          eventMap := eventMap - {eventType};
          assert eventMap == m0 - {eventType};
        } else {
          assert eventMap == m0[eventType := eventHandlers];
        }
      }
    }

    /**
     * `setupEventListeners(root)`: makes `root` the delegation root, then for
     * every type in a snapshot of the registry's keys removes `root`'s own
     * key from that type (dropping the type if nothing else was in it) and
     * attaches a bubbling listener for the type to `root`, dropped or not.
     */
    method SetupEventListeners(root: ElementId)
      requires Valid()
      modifies this
      ensures Valid()
      ensures rootElement == Some(root)
      ensures eventMap == RemoveRootKey(old(eventMap), old(eventMap).Keys, root)
      ensures listeners == old(listeners) + RootListeners(old(eventMap).Keys, root)
      ensures NoEmptyTypes(eventMap)
    {
      rootElement := Some(root);
      var snapshot := eventMap.Keys;
      ghost var m0, l0 := eventMap, listeners;
      ghost var done: set<EventType> := {};
      assert eventMap == RemoveRootKey(m0, done, root);
      while snapshot != {}
        invariant Valid() && rootElement == Some(root)
        invariant done + snapshot == m0.Keys && done !! snapshot
        invariant eventMap == RemoveRootKey(m0, done, root)
        invariant listeners == l0 + RootListeners(done, root)
        decreases snapshot
      {
        var eventType :| eventType in snapshot;
        RemoveRootKeyStep(m0, done, root, eventType);
        RootListenersStep(done, root, eventType);
        RetargetType(root, eventType);
        snapshot := snapshot - {eventType};
        done := done + {eventType};
      }
    }

    /**
     * The `forEach` callback of `setupEventListeners` for one type: remove
     * the root's own key from the type, then attach a bubbling listener for
     * the type to the root. The root is set, so the removal cannot throw.
     */
    method RetargetType(root: ElementId, eventType: EventType)
      requires Valid() && rootElement == Some(root)
      modifies this
      ensures Valid() && rootElement == Some(root)
      ensures eventMap == Unregister(old(eventMap), Exact(root), eventType)
      ensures listeners == old(listeners) + {Listener(root, eventType, false)}
    {
      var status := RemoveEvent(Exact(root), eventType, Delegate);
      assert status == Ok;
      listeners := listeners + {Listener(rootElement.value, eventType, false)};
    }

    /**
     * `handleEvent(event)`: the native listener's body. It runs nothing
     * unless the exact target is a key of the type's table; then it scans
     * the table in insertion order and stops at the first entry that is the
     * target or a selector the target matches, calling `preventDefault`
     * and that entry's handler.
     */
    method HandleEvent(event: Event, matches: MatchFn) returns (r: DispatchResult)
      ensures r == Dispatch(eventMap, event, matches)
    {
      var target := event.target;
      r := DispatchResult(None, false);
      if event.eventType in eventMap && Has(eventMap[event.eventType], Exact(target)) {
        var handlers := eventMap[event.eventType];
        var i := 0;
        while i < |handlers|
          invariant 0 <= i <= |handlers|
          invariant forall j :: 0 <= j < i ==> !KeyMatches(handlers[j].key, target, matches)
          invariant r == DispatchResult(None, false)
        {
          var entry := handlers[i];
          if entry.key.Exact? && entry.key.element == target {
            r := DispatchResult(Some(entry), true);
            break;
          }
          if entry.key.Selector? && matches(target, entry.key.selector) {
            r := DispatchResult(Some(entry), true);
            break;
          }
          i := i + 1;
        }
      }
    }
  }
}
