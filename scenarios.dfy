/**
 * Client runs of the delegation module, each one registration history
 * followed by an event. Each method's postcondition is what the module
 * promises for that history, derived from the operations' contracts and
 * the small registry facts proved below.
 */
module Scenarios {
  import opened Wrappers
  import opened Registry
  import opened Delegation

  const Root: ElementId := 0
  const ElementA: ElementId := 1
  const Click: EventType := "click"

  /** A host in which every element matches the selector ".btn". */
  const ButtonsMatch: MatchFn := (e: ElementId, s: string) => s == ".btn"

  // ---------------------------------------------------------------------
  // Client runs
  // ---------------------------------------------------------------------

  /** addEvent(a, "click", h1); setupEventListeners(root); a click on a runs h1 and prevents the default. */
  method ClickOnRegisteredElement() returns (r: DispatchResult)
    ensures r == DispatchResult(Some(Entry(Exact(ElementA), Callback(1))), true)
  {
    var manager := new EventManager();
    manager.AddEvent(Exact(ElementA), Click, Callback(1));
    RegisterFirst(Exact(ElementA), Click, Callback(1));
    SetupKeeps(Click, [Entry(Exact(ElementA), Callback(1))], Root);
    manager.SetupEventListeners(Root);
    DispatchOnly(Click, ElementA, Callback(1), ButtonsMatch);
    r := manager.HandleEvent(Event(Click, ElementA), ButtonsMatch);
  }

  /** Registering the same key twice: only the second handler ever runs. */
  method OverwriteKeepsLast() returns (r: DispatchResult)
    ensures r == DispatchResult(Some(Entry(Exact(ElementA), Callback(2))), true)
  {
    var manager := new EventManager();
    manager.AddEvent(Exact(ElementA), Click, Callback(1));
    manager.AddEvent(Exact(ElementA), Click, Callback(2));
    RegisterOverwrites(map[], Exact(ElementA), Click, Callback(1), Callback(2));
    RegisterFirst(Exact(ElementA), Click, Callback(2));
    SetupKeeps(Click, [Entry(Exact(ElementA), Callback(2))], Root);
    manager.SetupEventListeners(Root);
    DispatchOnly(Click, ElementA, Callback(2), ButtonsMatch);
    r := manager.HandleEvent(Event(Click, ElementA), ButtonsMatch);
  }

  /** A selector key alone never fires, even on an element that matches it. */
  method SelectorAloneDoesNotFire() returns (r: DispatchResult)
    ensures r == DispatchResult(None, false)
  {
    var manager := new EventManager();
    manager.AddEvent(Selector(".btn"), Click, Callback(2));
    RegisterFirst(Selector(".btn"), Click, Callback(2));
    SetupKeeps(Click, [Entry(Selector(".btn"), Callback(2))], Root);
    manager.SetupEventListeners(Root);
    DispatchSelectorOnly(Click, ".btn", Callback(2), ElementA, ButtonsMatch);
    r := manager.HandleEvent(Event(Click, ElementA), ButtonsMatch);
  }

  /** With the target registered too, an earlier matching selector runs instead of the target's own handler. */
  method EarlierSelectorWins() returns (r: DispatchResult)
    ensures r == DispatchResult(Some(Entry(Selector(".btn"), Callback(2))), true)
  {
    var manager := new EventManager();
    manager.AddEvent(Selector(".btn"), Click, Callback(2));
    RegisterFirst(Selector(".btn"), Click, Callback(2));
    manager.AddEvent(Exact(ElementA), Click, Callback(1));
    var table := [Entry(Selector(".btn"), Callback(2)), Entry(Exact(ElementA), Callback(1))];
    RegisterAnother(Click, Entry(Selector(".btn"), Callback(2)), Exact(ElementA), Callback(1));
    SetupKeeps(Click, table, Root);
    manager.SetupEventListeners(Root);
    DispatchSelectorFirst(Click, ".btn", Callback(2), ElementA, Callback(1), ButtonsMatch);
    r := manager.HandleEvent(Event(Click, ElementA), ButtonsMatch);
  }

  /** Removing the last handler of a type before any root is set throws. */
  method RemoveBeforeSetupThrows() returns (status: Status)
    ensures status == RootIsNull
  {
    var manager := new EventManager();
    manager.AddEvent(Exact(ElementA), Click, Callback(1));
    RegisterFirst(Exact(ElementA), Click, Callback(1));
    DeleteOnly(Exact(ElementA), Callback(1));
    status := manager.RemoveEvent(Exact(ElementA), Click, Callback(1));
  }

  /**
   * After setup, removing a's handler drops "click" and a click on a runs
   * nothing, but the root's bubbling listener for "click" stays attached.
   */
  method RemoveAfterSetup() returns (status: Status, r: DispatchResult, attached: bool)
    ensures status == Ok && r == DispatchResult(None, false) && attached
  {
    var manager := new EventManager();
    manager.AddEvent(Exact(ElementA), Click, Callback(1));
    RegisterFirst(Exact(ElementA), Click, Callback(1));
    SetupKeeps(Click, [Entry(Exact(ElementA), Callback(1))], Root);
    manager.SetupEventListeners(Root);
    DeleteOnly(Exact(ElementA), Callback(1));
    status := manager.RemoveEvent(Exact(ElementA), Click, Callback(1));
    r := manager.HandleEvent(Event(Click, ElementA), ButtonsMatch);
    attached := Listener(Root, Click, false) in manager.listeners;
  }

  /** A handler registered on the root itself is deleted by setup, which still attaches the listener. */
  method SetupDropsRootKey() returns (registered: bool, attached: bool)
    ensures !registered && attached
  {
    var manager := new EventManager();
    manager.AddEvent(Exact(Root), Click, Callback(1));
    RegisterFirst(Exact(Root), Click, Callback(1));
    DeleteOnly(Exact(Root), Callback(1));
    manager.SetupEventListeners(Root);
    registered := Click in manager.eventMap;
    attached := Listener(Root, Click, false) in manager.listeners;
  }

  /** A type first registered after setup is stored but gets no listener until setup runs again. */
  method RegisterAfterSetupIsInert() returns (registered: bool, attached: bool)
    ensures registered && !attached
  {
    var manager := new EventManager();
    manager.SetupEventListeners(Root);
    manager.AddEvent(Exact(ElementA), Click, Callback(1));
    registered := Click in manager.eventMap;
    attached := Listener(Root, Click, false) in manager.listeners;
  }

  // ---------------------------------------------------------------------
  // Registry facts for single-type histories
  // ---------------------------------------------------------------------

  /** The first registration creates a one-entry table. */
  lemma RegisterFirst(k: Key, t: EventType, h: Handler)
    ensures Register(map[], k, t, h) == map[t := [Entry(k, h)]]
  {
  }

  /** A second, different key is appended after the first. */
  lemma RegisterAnother(t: EventType, e: Entry, k: Key, h: Handler)
    requires e.key != k
    ensures Register(map[t := [e]], k, t, h) == map[t := [e, Entry(k, h)]]
  {
    assert !Has([e], k);
    assert [e] + [Entry(k, h)] == [e, Entry(k, h)];
  }

  /** Setup on a root that holds no key of a single-type registry changes nothing. */
  lemma SetupKeeps(t: EventType, hs: Handlers, root: ElementId)
    requires hs != [] && forall i :: 0 <= i < |hs| ==> hs[i].key != Exact(root)
    ensures RemoveRootKey(map[t := hs], map[t := hs].Keys, root) == map[t := hs]
  {
    RemoveAbsentRootKey(map[t := hs], root);
  }

  /** Deleting the only key empties the table. */
  lemma DeleteOnly(k: Key, h: Handler)
    ensures Delete([Entry(k, h)], k) == []
  {
    IndexOfAt([Entry(k, h)], k, 0);
  }

  /** A click on the only registered element runs its handler. */
  lemma DispatchOnly(t: EventType, a: ElementId, h: Handler, matches: MatchFn)
    ensures Dispatch(map[t := [Entry(Exact(a), h)]], Event(t, a), matches) == DispatchResult(Some(Entry(Exact(a), h)), true)
  {
    assert Has([Entry(Exact(a), h)], Exact(a));
  }

  /** A table holding only a selector fails the guard for every target. */
  lemma DispatchSelectorOnly(t: EventType, s: string, h: Handler, a: ElementId, matches: MatchFn)
    ensures Dispatch(map[t := [Entry(Selector(s), h)]], Event(t, a), matches) == DispatchResult(None, false)
  {
  }

  /** A matching selector registered before the target is the entry that runs. */
  lemma DispatchSelectorFirst(t: EventType, s: string, h2: Handler, a: ElementId, h1: Handler, matches: MatchFn)
    requires matches(a, s)
    ensures Dispatch(map[t := [Entry(Selector(s), h2), Entry(Exact(a), h1)]], Event(t, a), matches)
      == DispatchResult(Some(Entry(Selector(s), h2)), true)
  {
    var hs := [Entry(Selector(s), h2), Entry(Exact(a), h1)];
    assert hs[1].key == Exact(a);
    assert FirstMatch(hs, a, matches) == Some(0);
  }
}
