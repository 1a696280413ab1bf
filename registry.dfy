/**
 * The values behind the event-delegation registry of eventManager.js.
 *
 * The registry maps an event type to an inner table of handlers. An inner
 * table is keyed by an exact element or by a selector string and keeps the
 * insertion order of a JavaScript `Map`. It is represented here by its entry
 * sequence, in that order, with at most one entry per key. The functions
 * below are the specifications that the imperative class in
 * event_manager.dfy is proved against.
 */
module Registry {
  import opened Wrappers

  /** DOM elements are opaque identities. */
  type ElementId = nat

  type EventType = string

  /** The host's `element.matches(selector)`, left uninterpreted. */
  type MatchFn = (ElementId, string) -> bool

  /**
   * A handler is an opaque callback. `Delegate` stands for the module's own
   * dispatch routine `handleEvent`, which `setupEventListeners` passes as the
   * (ignored) handler argument of `removeEvent`.
   */
  datatype Handler = Callback(id: nat) | Delegate

  /** An inner-table key: an element matched by identity or a selector string. */
  datatype Key = Exact(element: ElementId) | Selector(selector: string)

  datatype Entry = Entry(key: Key, handler: Handler)

  /** An inner table, as its entries in insertion order. */
  type Handlers = seq<Entry>

  /** The process-wide `eventMap`: event type to inner table. */
  type EventMap = map<EventType, Handlers>

  /** The two fields of a DOM event that dispatch reads. */
  datatype Event = Event(eventType: EventType, target: ElementId)

  /** A native listener for `handleEvent`, attached to element `on`. */
  datatype Listener = Listener(on: ElementId, eventType: EventType, capture: bool)

  /** What one dispatch does: the entry whose handler runs, and whether `preventDefault` was called. */
  datatype DispatchResult = DispatchResult(fired: Option<Entry>, defaultPrevented: bool)

  // ---------------------------------------------------------------------
  // Inner tables
  // ---------------------------------------------------------------------

  /** A JavaScript `Map` never holds two entries with the same key. */
  ghost predicate UniqueKeys(hs: Handlers) {
    forall i, j :: 0 <= i < j < |hs| ==> hs[i].key != hs[j].key
  }

  /** The position of key `k` in the table, if present. */
  function IndexOf(hs: Handlers, k: Key): (r: Option<nat>)
    ensures r.Some? ==> r.value < |hs| && hs[r.value].key == k
    ensures r.Some? ==> forall j :: 0 <= j < r.value ==> hs[j].key != k
    ensures r.None? ==> forall j :: 0 <= j < |hs| ==> hs[j].key != k
  {
    if hs == [] then None
    else if hs[0].key == k then Some(0)
    else match IndexOf(hs[1..], k)
      case None => None
      case Some(i) => Some(i + 1)
  }

  /** The first occurrence of a key determines its position. */
  lemma IndexOfAt(hs: Handlers, k: Key, i: nat)
    requires i < |hs| && hs[i].key == k
    requires forall j :: 0 <= j < i ==> hs[j].key != k
    ensures IndexOf(hs, k) == Some(i)
  {
  }

  /** `Map.has`. */
  function Has(hs: Handlers, k: Key): (b: bool)
    ensures b <==> exists i :: 0 <= i < |hs| && hs[i].key == k
  {
    IndexOf(hs, k).Some?
  }

  /** `Map.get`. */
  function Get(hs: Handlers, k: Key): (r: Option<Handler>)
    ensures r.Some? <==> Has(hs, k)
    ensures UniqueKeys(hs) ==>
      forall i :: 0 <= i < |hs| && hs[i].key == k ==> r == Some(hs[i].handler)
  {
    match IndexOf(hs, k)
    case Some(i) => Some(hs[i].handler)
    case None => None
  }

  /**
   * `Map.set`: an existing key keeps its position and gets the new handler;
   * a new key is appended at the end of the insertion order. No other key
   * moves or changes handler.
   */
  function Set(hs: Handlers, k: Key, h: Handler): (r: Handlers)
    ensures Get(r, k) == Some(h)
    ensures Has(hs, k) ==> |r| == |hs| && IndexOf(r, k) == IndexOf(hs, k)
    ensures !Has(hs, k) ==> r == hs + [Entry(k, h)]
    ensures forall k' :: k' != k ==> IndexOf(r, k') == IndexOf(hs, k') && Get(r, k') == Get(hs, k')
    ensures UniqueKeys(hs) ==> UniqueKeys(r)
  {
    match IndexOf(hs, k)
    case Some(i) =>
      var r := hs[i := Entry(k, h)];
      IndexOfAt(r, k, i);
      SetOthers(hs, r, k, i);
      r
    case None =>
      var r := hs + [Entry(k, h)];
      IndexOfAt(r, k, |hs|);
      SetOthers(hs, r, k, |hs|);
      r
  }

  /** Replacing or appending at the first occurrence of `k` leaves every other key where it was. */
  lemma SetOthers(hs: Handlers, r: Handlers, k: Key, i: nat)
    requires i <= |hs| && |hs| <= |r| && i < |r| && r[i].key == k
    requires forall j :: 0 <= j < i ==> hs[j].key != k
    requires forall j :: 0 <= j < |hs| && j != i ==> r[j] == hs[j]
    requires i == |hs| ==> |r| == |hs| + 1
    requires i < |hs| ==> |r| == |hs| && hs[i].key == k
    ensures forall k' :: k' != k ==> IndexOf(r, k') == IndexOf(hs, k') && Get(r, k') == Get(hs, k')
  {
  }

  /** `Map.delete`: drops the entry for `k`; the entries after it move up by one. */
  function Delete(hs: Handlers, k: Key): (r: Handlers)
    ensures !Has(hs, k) ==> r == hs
    ensures Has(hs, k) ==> |r| == |hs| - 1
    ensures forall k' :: k' != k ==> Get(r, k') == Get(hs, k')
    ensures UniqueKeys(hs) ==> UniqueKeys(r) && !Has(r, k)
  {
    match IndexOf(hs, k)
    case Some(i) =>
      var r := hs[..i] + hs[i + 1..];
      DeleteOthers(hs, k, i);
      r
    case None => hs
  }

  lemma DeleteOthers(hs: Handlers, k: Key, i: nat)
    requires i < |hs| && hs[i].key == k
    requires forall j :: 0 <= j < i ==> hs[j].key != k
    ensures forall k' :: k' != k ==> Get(hs[..i] + hs[i + 1..], k') == Get(hs, k')
    ensures UniqueKeys(hs) ==> UniqueKeys(hs[..i] + hs[i + 1..]) && !Has(hs[..i] + hs[i + 1..], k)
  {
    var r := hs[..i] + hs[i + 1..];
    assert forall j :: 0 <= j < i ==> r[j] == hs[j];
    assert forall j :: i <= j < |r| ==> r[j] == hs[j + 1];
    forall k' | k' != k
      ensures Get(r, k') == Get(hs, k')
    {
      match IndexOf(hs, k')
      case Some(p) => ShiftedIndex(hs, k, i, k', p);
      case None =>
    }
  }

  /** Where key `k'` lands once the entry at `i` is cut out. */
  lemma ShiftedIndex(hs: Handlers, k: Key, i: nat, k': Key, p: nat)
    requires i < |hs| && hs[i].key == k && k' != k
    requires IndexOf(hs, k') == Some(p)
    ensures IndexOf(hs[..i] + hs[i + 1..], k') == Some(if p < i then p else p - 1)
  {
    var r := hs[..i] + hs[i + 1..];
    assert forall j :: 0 <= j < i ==> r[j] == hs[j];
    assert forall j :: i <= j < |r| ==> r[j] == hs[j + 1];
    IndexOfAt(r, k', if p < i then p else p - 1);
  }

  /** Deleting keeps the relative order of the remaining keys. */
  lemma DeleteKeepsOrder(hs: Handlers, k: Key, k1: Key, k2: Key)
    requires k1 != k && k2 != k && Has(hs, k1) && Has(hs, k2)
    ensures Has(Delete(hs, k), k1) && Has(Delete(hs, k), k2)
    ensures IndexOf(Delete(hs, k), k1).value < IndexOf(Delete(hs, k), k2).value
        <==> IndexOf(hs, k1).value < IndexOf(hs, k2).value
  {
    match IndexOf(hs, k)
    case None =>
    case Some(i) =>
      var r := hs[..i] + hs[i + 1..];
      assert Delete(hs, k) == r;
      var p1, p2 := IndexOf(hs, k1).value, IndexOf(hs, k2).value;
      var q1 := if p1 < i then p1 else p1 - 1;
      var q2 := if p2 < i then p2 else p2 - 1;
      ShiftedIndex(hs, k, i, k1, p1);
      ShiftedIndex(hs, k, i, k2, p2);
  }

  // ---------------------------------------------------------------------
  // The outer map
  // ---------------------------------------------------------------------

  /** Every inner table stored in the registry has unique keys. */
  ghost predicate WellFormed(m: EventMap) {
    forall t :: t in m ==> UniqueKeys(m[t])
  }

  /** Every event type stored in the registry still has a handler. */
  ghost predicate NoEmptyTypes(m: EventMap) {
    forall t :: t in m ==> m[t] != []
  }

  /**
   * The registry after `addEvent(k, t, h)`: an inner table is created only
   * for a new type, and `k` is set to `h` in it. Other types are untouched,
   * and so are the other keys of `t`, positions included.
   */
  function Register(m: EventMap, k: Key, t: EventType, h: Handler): (r: EventMap)
    ensures r.Keys == m.Keys + {t}
    ensures forall u :: u in m && u != t ==> r[u] == m[u]
    ensures Get(r[t], k) == Some(h)
    ensures t !in m ==> r[t] == [Entry(k, h)]
    ensures t in m ==> forall k' :: k' != k ==>
      Get(r[t], k') == Get(m[t], k') && IndexOf(r[t], k') == IndexOf(m[t], k')
    ensures t in m && Has(m[t], k) ==> IndexOf(r[t], k) == IndexOf(m[t], k)
    ensures t in m && !Has(m[t], k) ==> r[t] == m[t] + [Entry(k, h)]
    ensures WellFormed(m) ==> WellFormed(r)
    ensures NoEmptyTypes(m) ==> NoEmptyTypes(r)
  {
    m[t := Set(if t in m then m[t] else [], k, h)]
  }

  /**
   * The registry after `removeEvent(k, t, _)` once the root is set: key `k`
   * (and only it) leaves the inner table of `t`, and `t` itself is dropped
   * when that leaves its table empty.
   */
  function Unregister(m: EventMap, k: Key, t: EventType): (r: EventMap)
    ensures t !in m ==> r == m
    ensures forall u :: u != t ==> (u in r <==> u in m)
    ensures forall u :: u in r && u != t ==> r[u] == m[u]
    ensures t in m ==> (t in r <==> Delete(m[t], k) != [])
    ensures t in r ==> r[t] == Delete(m[t], k)
    ensures t in r ==> forall k' :: k' != k ==> Get(r[t], k') == Get(m[t], k')
    ensures t in r && UniqueKeys(m[t]) ==> !Has(r[t], k)
    ensures WellFormed(m) ==> WellFormed(r)
    ensures NoEmptyTypes(m) ==> NoEmptyTypes(r)
  {
    if t !in m then m
    else
      var rest := Delete(m[t], k);
      if rest == [] then m - {t} else m[t := rest]
  }

  /** Registering the same key twice is the same as registering only the second handler. */
  lemma RegisterOverwrites(m: EventMap, k: Key, t: EventType, h1: Handler, h2: Handler)
    ensures Register(Register(m, k, t, h1), k, t, h2) == Register(m, k, t, h2)
  {
    SetTwice(if t in m then m[t] else [], k, h1, h2);
  }

  /** The second `Map.set` of a key replaces the handler the first one stored, in the same place. */
  lemma SetTwice(hs: Handlers, k: Key, h1: Handler, h2: Handler)
    ensures Set(Set(hs, k, h1), k, h2) == Set(hs, k, h2)
  {
    match IndexOf(hs, k)
    case Some(i) =>
      assert Set(hs, k, h1) == hs[i := Entry(k, h1)];
      IndexOfAt(hs[i := Entry(k, h1)], k, i);
    case None =>
      assert Set(hs, k, h1) == hs + [Entry(k, h1)];
      IndexOfAt(hs + [Entry(k, h1)], k, |hs|);
      assert (hs + [Entry(k, h1)])[|hs| := Entry(k, h2)] == hs + [Entry(k, h2)];
  }

  /** Adding a fresh key and removing it again gives back the registry. */
  lemma RegisterThenUnregister(m: EventMap, k: Key, t: EventType, h: Handler)
    requires NoEmptyTypes(m)
    requires t in m ==> !Has(m[t], k)
    ensures Unregister(Register(m, k, t, h), k, t) == m
  {
    if t in m {
      assert Register(m, k, t, h) == m[t := m[t] + [Entry(k, h)]];
      UnregisterAppended(m, k, t, h);
    } else {
      assert Register(m, k, t, h) == m[t := [Entry(k, h)]];
      UnregisterFreshType(m, k, t, h);
    }
  }

  /** Removing the only key of a type that was just created drops the type again. */
  lemma UnregisterFreshType(m: EventMap, k: Key, t: EventType, h: Handler)
    requires t !in m
    ensures Unregister(m[t := [Entry(k, h)]], k, t) == m
  {
    IndexOfAt([Entry(k, h)], k, 0);
    assert Delete([Entry(k, h)], k) == [];
    assert m[t := [Entry(k, h)]] - {t} == m;
  }

  /** Removing the key just appended to an existing type restores its table. */
  lemma UnregisterAppended(m: EventMap, k: Key, t: EventType, h: Handler)
    requires t in m && m[t] != [] && !Has(m[t], k)
    ensures Unregister(m[t := m[t] + [Entry(k, h)]], k, t) == m
  {
    DeleteAppended(m[t], k, h);
    assert m[t := m[t] + [Entry(k, h)]][t := m[t]] == m;
  }

  /** Deleting the key just appended gives back the table it was appended to. */
  lemma DeleteAppended(hs: Handlers, k: Key, h: Handler)
    requires !Has(hs, k)
    ensures Delete(hs + [Entry(k, h)], k) == hs
  {
    IndexOfAt(hs + [Entry(k, h)], k, |hs|);
    assert (hs + [Entry(k, h)])[..|hs|] + (hs + [Entry(k, h)])[|hs| + 1..] == hs;
  }

  /** The keys left in a type after `removeEvent` keep their relative insertion order, so dispatch scans them in the same order. */
  lemma UnregisterKeepsOrder(m: EventMap, k: Key, t: EventType, k1: Key, k2: Key)
    requires t in m && k1 != k && k2 != k && Has(m[t], k1) && Has(m[t], k2)
    ensures var r := Unregister(m, k, t);
      t in r && Has(r[t], k1) && Has(r[t], k2)
      && (IndexOf(r[t], k1).value < IndexOf(r[t], k2).value <==> IndexOf(m[t], k1).value < IndexOf(m[t], k2).value)
  {
    DeleteKeepsOrder(m[t], k, k1, k2);
  }

  // ---------------------------------------------------------------------
  // Dispatch
  // ---------------------------------------------------------------------

  /** The per-entry test of `handleEvent`: identity for an element, `matches` for a selector. */
  predicate KeyMatches(k: Key, target: ElementId, matches: MatchFn) {
    match k
    case Exact(e) => e == target
    case Selector(s) => matches(target, s)
  }

  /** The position of the first entry, in insertion order, whose key matches `target`. */
  function FirstMatch(hs: Handlers, target: ElementId, matches: MatchFn): (r: Option<nat>)
    ensures r.Some? ==> r.value < |hs| && KeyMatches(hs[r.value].key, target, matches)
    ensures r.Some? ==> forall j :: 0 <= j < r.value ==> !KeyMatches(hs[j].key, target, matches)
    ensures r.None? ==> forall j :: 0 <= j < |hs| ==> !KeyMatches(hs[j].key, target, matches)
  {
    if hs == [] then None
    else if KeyMatches(hs[0].key, target, matches) then Some(0)
    else match FirstMatch(hs[1..], target, matches)
      case None => None
      case Some(i) => Some(i + 1)
  }

  /**
   * The entry `handleEvent` runs for `ev`. The scan happens only when the
   * exact target is itself a key of the event type's table; it then takes
   * the first entry in insertion order that matches the target. A handler
   * runs exactly when the guard passes, and `preventDefault` is called
   * exactly when a handler runs.
   */
  function Dispatch(m: EventMap, ev: Event, matches: MatchFn): (r: DispatchResult)
    ensures r.defaultPrevented <==> r.fired.Some?
    ensures r.fired.Some? <==> ev.eventType in m && Has(m[ev.eventType], Exact(ev.target))
    ensures r.fired.Some? ==>
      exists i :: 0 <= i < |m[ev.eventType]| && m[ev.eventType][i] == r.fired.value
        && KeyMatches(m[ev.eventType][i].key, ev.target, matches)
        && forall j :: 0 <= j < i ==> !KeyMatches(m[ev.eventType][j].key, ev.target, matches)
  {
    if ev.eventType in m && Has(m[ev.eventType], Exact(ev.target)) then
      var hs := m[ev.eventType];
      match FirstMatch(hs, ev.target, matches)
      case Some(i) => DispatchResult(Some(hs[i]), true)
      case None =>
        var p := IndexOf(hs, Exact(ev.target)).value;
        assert KeyMatches(hs[p].key, ev.target, matches);
        DispatchResult(None, false)
    else
      DispatchResult(None, false)
  }

  /**
   * After `addEvent(Exact(a), t, h)`, an event of type `t` on `a` runs `h`
   * exactly when no entry before `a`'s own, in insertion order, matches `a`
   * (an earlier matching selector would run instead).
   */
  lemma RegisteredTargetFires(m: EventMap, a: ElementId, t: EventType, h: Handler, matches: MatchFn)
    requires WellFormed(m)
    ensures var hs := Register(m, Exact(a), t, h)[t];
      Dispatch(Register(m, Exact(a), t, h), Event(t, a), matches) == DispatchResult(Some(Entry(Exact(a), h)), true)
      <==> forall j :: 0 <= j < IndexOf(hs, Exact(a)).value ==> !KeyMatches(hs[j].key, a, matches)
  {
    var r := Register(m, Exact(a), t, h);
    var hs := r[t];
    var p := IndexOf(hs, Exact(a)).value;
    assert UniqueKeys(hs);
    assert hs[p] == Entry(Exact(a), h);
  }

  /** Once `removeEvent(Exact(a), t, _)` has run, no event of type `t` on `a` runs any handler. */
  lemma UnregisteredTargetFiresNothing(m: EventMap, a: ElementId, t: EventType, matches: MatchFn)
    requires WellFormed(m)
    ensures Dispatch(Unregister(m, Exact(a), t), Event(t, a), matches) == DispatchResult(None, false)
  {
  }

  // ---------------------------------------------------------------------
  // Re-targeting onto a new root (the loop of setupEventListeners)
  // ---------------------------------------------------------------------

  /** Removing the root's own key leaves type `t` without handlers, so `t` is dropped. */
  predicate DropsRootKey(m: EventMap, root: ElementId, t: EventType) {
    t in m && Delete(m[t], Exact(root)) == []
  }

  /**
   * The registry once `removeEvent(root, t, handleEvent)` has run for every
   * type `t` in `done`. A processed type keeps its table without the root's
   * key, or is gone if nothing else was in it; unprocessed types are
   * untouched.
   */
  function RemoveRootKey(m: EventMap, done: set<EventType>, root: ElementId): (r: EventMap)
    ensures forall t :: t in r <==> t in m && !(t in done && DropsRootKey(m, root, t))
    ensures forall t :: t in r && t !in done ==> r[t] == m[t]
    ensures forall t :: t in r && t in done ==> r[t] == Delete(m[t], Exact(root))
    ensures forall t :: t in r && t in done ==> r[t] != [] && (UniqueKeys(m[t]) ==> !Has(r[t], Exact(root)))
    ensures forall t, k :: t in r && k != Exact(root) ==> Get(r[t], k) == Get(m[t], k)
    ensures WellFormed(m) ==> WellFormed(r)
  {
    map t | t in m && !(t in done && DropsRootKey(m, root, t)) ::
      if t in done then Delete(m[t], Exact(root)) else m[t]
  }

  /** One more iteration of the loop: removing the root's key from one more type. */
  lemma RemoveRootKeyStep(m: EventMap, done: set<EventType>, root: ElementId, t: EventType)
    requires t in m && t !in done
    ensures Unregister(RemoveRootKey(m, done, root), Exact(root), t) == RemoveRootKey(m, done + {t}, root)
  {
    var r := Unregister(RemoveRootKey(m, done, root), Exact(root), t);
    var after := RemoveRootKey(m, done + {t}, root);
    StepKeys(m, done, root, t);
    forall u | u in r
      ensures r[u] == after[u]
    {
      StepValue(m, done, root, t, u);
    }
  }

  /** The types kept by one more iteration are exactly the types kept by the step. */
  lemma StepKeys(m: EventMap, done: set<EventType>, root: ElementId, t: EventType)
    requires t in m && t !in done
    ensures Unregister(RemoveRootKey(m, done, root), Exact(root), t).Keys == RemoveRootKey(m, done + {t}, root).Keys
  {
    assert RemoveRootKey(m, done, root)[t] == m[t];
  }

  /** Each kept type has the same table either way. */
  lemma StepValue(m: EventMap, done: set<EventType>, root: ElementId, t: EventType, u: EventType)
    requires t in m && t !in done
    requires u in RemoveRootKey(m, done + {t}, root)
    ensures u in Unregister(RemoveRootKey(m, done, root), Exact(root), t)
    ensures Unregister(RemoveRootKey(m, done, root), Exact(root), t)[u] == RemoveRootKey(m, done + {t}, root)[u]
  {
    StepKeys(m, done, root, t);
    assert RemoveRootKey(m, done, root)[t] == m[t];
  }

  /** Setting up a root that is not itself a key of any type leaves a registry without empty types as it was. */
  lemma RemoveAbsentRootKey(m: EventMap, root: ElementId)
    requires NoEmptyTypes(m)
    requires forall t :: t in m ==> !Has(m[t], Exact(root))
    ensures RemoveRootKey(m, m.Keys, root) == m
  {
    var r := RemoveRootKey(m, m.Keys, root);
    assert r.Keys == m.Keys;
    forall t | t in m
      ensures r[t] == m[t]
    {
      assert r[t] == Delete(m[t], Exact(root));
    }
  }

  /** The bubbling listeners for `handleEvent` that the loop attaches to `root`, one per type in `types`. */
  function RootListeners(types: set<EventType>, root: ElementId): (r: set<Listener>)
  {
    set t | t in types :: Listener(root, t, false)
  }

  /** Distinct types give distinct listeners: the loop attaches exactly one listener per type. */
  lemma {:induction false} RootListenersCount(types: set<EventType>, root: ElementId)
    ensures |RootListeners(types, root)| == |types|
    decreases types
  {
    if types == {} {
      assert RootListeners(types, root) == {};
    } else {
      var t0 :| t0 in types;
      var rest := types - {t0};
      RootListenersCount(rest, root);
      RootListenersStep(rest, root, t0);
      assert types == rest + {t0};
      assert Listener(root, t0, false) !in RootListeners(rest, root);
    }
  }

  /** One more iteration attaches one more listener. */
  lemma RootListenersStep(types: set<EventType>, root: ElementId, t: EventType)
    ensures RootListeners(types + {t}, root) == RootListeners(types, root) + {Listener(root, t, false)}
  {
  }
}
