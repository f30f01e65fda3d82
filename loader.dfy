/**
 * The state machine of `ComponentLoaderService` over its three tables, as
 * pure functions on a `State` value. The class in module `Service` runs the
 * same transitions by updating its fields; the lemmas here state what each
 * branch of `loadComponent` and each completion of a load does.
 *
 * Promises, Angular module references, loader callbacks and DOM elements are
 * opaque identities (`nat`s). A promise created for a load is a `Ticket`
 * taken from a counter, so two loads never share one.
 */
module Loader {
  import opened Results
  import opened OrderedMaps

  /** A component's tag name. */
  type Selector = string
  /** Identity of a `loadChildren` callback. */
  type LoaderRef = nat
  /** Identity of the promise of one load, shared by every caller that joins it. */
  type Ticket = nat
  /** Identity of the `NgModuleRef` a finished load produced. */
  type ModuleRef = nat
  /** Identity of an element made by `document.createElement`. */
  type Element = nat

  /** One configured route: a selector and the callback that fetches its module. */
  datatype LazyComponentDef = LazyComponentDef(selector: Selector, loadChildren: LoaderRef)

  /** `LazyCmpLoadedEvent`: what a caller receives once a selector is usable. */
  datatype LoadedEvent = LoadedEvent(selector: Selector, componentInstance: Option<Element>)

  /** The promise `loadComponent` hands back, by the branch that produced it. */
  datatype Response =
    | Joined(ticket: Ticket)                          // the stored promise of the load in flight
    | Started(ticket: Ticket, def: LazyComponentDef)  // a new load, invoking `def.loadChildren`
    | Ready(event: LoadedEvent)                       // an already-resolved promise

  datatype LoadError = UnrecognizedComponent(message: string)

  /** The service's three tables, plus the counters that make promises and elements distinct. */
  datatype State = State(
    componentsToLoad: OrderedMap<Selector, LazyComponentDef>,
    loadedCmps: OrderedMap<Selector, ModuleRef>,
    elementsLoading: map<Selector, Ticket>,
    nextTicket: Ticket,
    nextElement: Element)

  /** The state after a call of `loadComponent`, and its answer. */
  datatype Step = Step(next: State, out: Result<Response, LoadError>)

  /** The state after a load succeeded, the promise it resolved and the value it resolved it with. */
  datatype Settled = Settled(next: State, resolved: Ticket, event: LoadedEvent)

  /**
   * The invariant every operation keeps: the tables are well-formed ordered maps,
   * a declared entry is filed under its own selector, every selector in flight
   * is declared, no selector is both declared and loaded, and the promises in
   * flight are distinct and older than the next one to be made.
   */
  ghost predicate Inv(st: State) {
    && st.componentsToLoad.Valid()
    && st.loadedCmps.Valid()
    && (forall s :: st.componentsToLoad.Has(s) ==> st.componentsToLoad.Get(s).selector == s)
    && (forall s :: s in st.elementsLoading ==> st.componentsToLoad.Has(s))
    && (forall s :: st.componentsToLoad.Has(s) ==> !st.loadedCmps.Has(s))
    && (forall s :: s in st.elementsLoading ==> st.elementsLoading[s] < st.nextTicket)
    && (forall s, s' :: s in st.elementsLoading && s' in st.elementsLoading && s != s' ==>
          st.elementsLoading[s] != st.elementsLoading[s'])
  }

  /** The selectors the routes name. */
  function Selectors(routes: seq<LazyComponentDef>): set<Selector> {
    set d | d in routes :: d.selector
  }

  /** The map the constructor builds: each route filed under its selector, later routes replacing earlier ones. */
  function Indexed(routes: seq<LazyComponentDef>): (r: OrderedMap<Selector, LazyComponentDef>)
    ensures r.Valid()
    ensures forall s :: r.Has(s) ==> r.Get(s).selector == s
    ensures forall s :: r.Has(s) <==> s in Selectors(routes)
  {
    if routes == [] then Empty()
    else
      var last := routes[|routes| - 1];
      assert routes == routes[..|routes| - 1] + [last];
      assert Selectors(routes) == Selectors(routes[..|routes| - 1]) + {last.selector};
      Indexed(routes[..|routes| - 1]).Set(last.selector, last)
  }

  /** The state right after construction. */
  function Initial(routes: seq<LazyComponentDef>): (r: State)
    ensures Inv(r)
    ensures forall s :: r.componentsToLoad.Has(s) <==> s in Selectors(routes)
    ensures forall s :: !r.loadedCmps.Has(s)
    ensures r.elementsLoading == map[]
  {
    State(Indexed(routes), Empty(), map[], 0, 0)
  }

  /** The text of the error thrown for a selector the service does not know; it quotes the selector. */
  function UnrecognizedMessage(sel: Selector): (r: string)
    ensures |r| > 24 + |sel| && r[24..24 + |sel|] == sel
    ensures r[..24] == "Unrecognized component \""
  {
    "Unrecognized component \"" + sel + "\". Make sure it is registered in the component registry"
  }

  /** `loadComponent(sel, createInstance)`, up to the point where it returns its promise. */
  function RequestStep(st: State, sel: Selector, createInstance: bool): (r: Step)
    ensures Inv(st) ==> Inv(r.next)
    ensures r.next.componentsToLoad == st.componentsToLoad && r.next.loadedCmps == st.loadedCmps
    ensures forall s :: s in st.elementsLoading ==>
              s in r.next.elementsLoading && r.next.elementsLoading[s] == st.elementsLoading[s]
    ensures forall s :: s in r.next.elementsLoading && s != sel ==> s in st.elementsLoading
  {
    if sel in st.elementsLoading then
      Step(st, Ok(Joined(st.elementsLoading[sel])))
    else if st.componentsToLoad.Has(sel) then
      var loadPromise := st.nextTicket;
      Step(st.(elementsLoading := st.elementsLoading[sel := loadPromise], nextTicket := loadPromise + 1),
           Ok(Started(loadPromise, st.componentsToLoad.Get(sel))))
    else if st.loadedCmps.Has(sel) then
      if createInstance then
        Step(st.(nextElement := st.nextElement + 1), Ok(Ready(LoadedEvent(sel, Some(st.nextElement)))))
      else
        Step(st, Ok(Ready(LoadedEvent(sel, None))))
    else
      Step(st, Err(UnrecognizedComponent(UnrecognizedMessage(sel))))
  }

  /** The load in flight for `sel` succeeded: `whenDefined` resolved and the cleanup ran. */
  function SuccessStep(st: State, sel: Selector, moduleRef: ModuleRef): (r: Settled)
    requires sel in st.elementsLoading
    ensures Inv(st) ==> Inv(r.next)
    ensures forall s :: s != sel && s in st.elementsLoading ==>
              s in r.next.elementsLoading && r.next.elementsLoading[s] == st.elementsLoading[s]
    ensures r.next.nextTicket == st.nextTicket && r.next.nextElement == st.nextElement
  {
    Settled(
      st.(loadedCmps := st.loadedCmps.Set(sel, moduleRef),
          elementsLoading := st.elementsLoading - {sel},
          componentsToLoad := st.componentsToLoad.Delete(sel)),
      st.elementsLoading[sel],
      LoadedEvent(sel, None))
  }

  /** The load in flight for `sel` failed after its first suspension: only the in-flight entry goes. */
  function FailureStep(st: State, sel: Selector): (r: State)
    ensures Inv(st) ==> Inv(r)
    ensures sel !in r.elementsLoading
    ensures forall s :: s != sel && s in st.elementsLoading ==>
              s in r.elementsLoading && r.elementsLoading[s] == st.elementsLoading[s]
    ensures r.componentsToLoad == st.componentsToLoad && r.loadedCmps == st.loadedCmps
    ensures r.nextTicket == st.nextTicket && r.nextElement == st.nextElement
  {
    st.(elementsLoading := st.elementsLoading - {sel})
  }

  /**
   * As written, a `loadChildren` callback that throws synchronously, or returns
   * something without a `then`, throws inside the promise executor: the promise
   * is rejected there, stored as in flight all the same, and no handler ever
   * deletes it.
   */
  function SyncLoaderThrowAsWritten(st: State, sel: Selector): (r: State)
    requires sel in st.elementsLoading
    ensures sel in r.elementsLoading && r.elementsLoading[sel] == st.elementsLoading[sel]
  {
    st
  }

  // ---------------------------------------------------------------------------
  // Construction

  /** One step of construction: the routes but the last, then `set` of the last. */
  lemma IndexedUnfold(routes: seq<LazyComponentDef>)
    requires routes != []
    ensures var last := routes[|routes| - 1];
      Indexed(routes) == Indexed(routes[..|routes| - 1]).Set(last.selector, last)
  {
  }

  /** The last route configured for a selector is the one filed under it. */
  lemma {:induction false} IndexedLastWins(routes: seq<LazyComponentDef>, i: nat)
    requires i < |routes|
    requires forall j :: i < j < |routes| ==> routes[j].selector != routes[i].selector
    ensures Indexed(routes).Has(routes[i].selector)
    ensures Indexed(routes).Get(routes[i].selector) == routes[i]
  {
    var n := |routes|;
    var prefix := routes[..n - 1];
    IndexedUnfold(routes);
    if i < n - 1 {
      forall j | i < j < |prefix| ensures prefix[j].selector != prefix[i].selector {
        assert prefix[j] == routes[j];
      }
      IndexedLastWins(prefix, i);
    }
  }

  /** Construction only ever appends keys: the keys of a prefix of the routes are a prefix of the keys. */
  lemma {:induction false} IndexedKeysGrow(routes: seq<LazyComponentDef>, i: nat)
    requires i <= |routes|
    ensures Indexed(routes[..i]).keys <= Indexed(routes).keys
    decreases |routes| - i
  {
    var n := |routes|;
    if i == n {
      assert routes[..i] == routes;
    } else {
      var prefix := routes[..n - 1];
      IndexedUnfold(routes);
      assert Indexed(prefix).keys <= Indexed(routes).keys;
      assert prefix[..i] == routes[..i];
      IndexedKeysGrow(prefix, i);
    }
  }

  /** A selector sits in the iteration order right after every selector configured before its first route. */
  lemma IndexedFirstOccurrence(routes: seq<LazyComponentDef>, i: nat)
    requires i < |routes|
    requires forall j :: 0 <= j < i ==> routes[j].selector != routes[i].selector
    ensures |Indexed(routes[..i]).keys| < |Indexed(routes).keys|
    ensures Indexed(routes).keys[|Indexed(routes[..i]).keys|] == routes[i].selector
  {
    var before := Indexed(routes[..i]);
    assert routes[..i + 1][..i] == routes[..i];
    forall d | d in routes[..i] ensures d.selector != routes[i].selector {
      var j :| 0 <= j < i && routes[j] == d;
    }
    assert routes[i].selector !in Selectors(routes[..i]);
    assert Indexed(routes[..i + 1]).keys == before.keys + [routes[i].selector];
    IndexedKeysGrow(routes, i + 1);
  }

  // ---------------------------------------------------------------------------
  // The four branches of loadComponent

  /** A selector in flight gets the stored promise back, whatever `createInstance` is, and nothing changes. */
  lemma JoinSharesHandle(st: State, sel: Selector, createInstance: bool)
    requires sel in st.elementsLoading
    ensures RequestStep(st, sel, createInstance).next == st
    ensures RequestStep(st, sel, createInstance).out == Ok(Joined(st.elementsLoading[sel]))
  {
  }

  /**
   * A declared selector not in flight starts one load with a fresh promise, recorded
   * before anything else can run; the loader called is the configured one; a second
   * request in the resulting state joins that promise instead of starting again.
   */
  lemma StartRegistersHandle(st: State, sel: Selector, createInstance: bool, again: bool)
    requires Inv(st)
    requires sel !in st.elementsLoading && st.componentsToLoad.Has(sel)
    ensures var r := RequestStep(st, sel, createInstance);
      && r.out == Ok(Started(st.nextTicket, st.componentsToLoad.Get(sel)))
      && r.out.value.def.selector == sel
      && (forall s :: s in st.elementsLoading ==> st.elementsLoading[s] != st.nextTicket)
      && r.next.elementsLoading == st.elementsLoading[sel := st.nextTicket]
      && r.next.componentsToLoad == st.componentsToLoad
      && r.next.loadedCmps == st.loadedCmps
      && RequestStep(r.next, sel, again) == Step(r.next, Ok(Joined(st.nextTicket)))
  {
  }

  /**
   * The declared branch is tested before the loaded one: a selector that is both
   * declared and loaded (possible only between the `set` at line 123 and the
   * deletes after it, which the success step makes atomic) starts a new load.
   */
  lemma DeclaredBeforeLoaded(st: State, sel: Selector, createInstance: bool)
    requires sel !in st.elementsLoading && st.componentsToLoad.Has(sel) && st.loadedCmps.Has(sel)
    ensures RequestStep(st, sel, createInstance).out == Ok(Started(st.nextTicket, st.componentsToLoad.Get(sel)))
  {
  }

  /**
   * A loaded selector that is neither in flight nor declared (under the invariant,
   * every loaded one) is answered at once with an event for it; the event carries a
   * new element exactly when one was asked for, and no table changes.
   */
  lemma LoadedAnswersDirectly(st: State, sel: Selector, createInstance: bool)
    requires sel !in st.elementsLoading && !st.componentsToLoad.Has(sel)
    requires st.loadedCmps.Has(sel)
    ensures var r := RequestStep(st, sel, createInstance);
      && r.out.Ok? && r.out.value.Ready?
      && r.out.value.event.selector == sel
      && (r.out.value.event.componentInstance.Some? <==> createInstance)
      && r.next.componentsToLoad == st.componentsToLoad
      && r.next.loadedCmps == st.loadedCmps
      && r.next.elementsLoading == st.elementsLoading
  {
  }

  /** Two requests for a loaded selector that both ask for an element get two different elements. */
  lemma FreshInstancePerCall(st: State, sel: Selector)
    requires Inv(st)
    requires st.loadedCmps.Has(sel)
    ensures var first := RequestStep(st, sel, true);
      var second := RequestStep(first.next, sel, true);
      && first.out.Ok? && second.out.Ok?
      && first.out.value.event.componentInstance != second.out.value.event.componentInstance
  {
  }

  /** A selector in no table is an error, and the state is left as it was. */
  lemma UnknownRaises(st: State, sel: Selector, createInstance: bool)
    requires sel !in st.elementsLoading && !st.componentsToLoad.Has(sel) && !st.loadedCmps.Has(sel)
    ensures RequestStep(st, sel, createInstance) == Step(st, Err(UnrecognizedComponent(UnrecognizedMessage(sel))))
  {
  }

  // ---------------------------------------------------------------------------
  // Completion of a load

  /**
   * Success resolves the stored promise with `{selector, componentInstance: null}`
   * and moves the selector from declared and in flight to loaded; other selectors
   * keep their place in every table.
   */
  lemma SuccessMovesToLoaded(st: State, sel: Selector, moduleRef: ModuleRef)
    requires Inv(st)
    requires sel in st.elementsLoading
    ensures var r := SuccessStep(st, sel, moduleRef);
      && r.resolved == st.elementsLoading[sel]
      && r.event == LoadedEvent(sel, None)
      && r.next.loadedCmps.Has(sel) && r.next.loadedCmps.Get(sel) == moduleRef
      && !r.next.componentsToLoad.Has(sel) && sel !in r.next.elementsLoading
      && (forall s :: s != sel ==> (r.next.componentsToLoad.Has(s) <==> st.componentsToLoad.Has(s)))
      && (forall s :: s != sel ==> (r.next.loadedCmps.Has(s) <==> st.loadedCmps.Has(s)))
      && (forall s :: s != sel ==> (s in r.next.elementsLoading <==> s in st.elementsLoading))
      && (forall s :: s != sel && s in st.elementsLoading ==> r.next.elementsLoading[s] == st.elementsLoading[s])
      && (forall s :: s != sel && st.componentsToLoad.Has(s) ==>
            r.next.componentsToLoad.Get(s) == st.componentsToLoad.Get(s))
      && (forall s :: s != sel && st.loadedCmps.Has(s) ==> r.next.loadedCmps.Get(s) == st.loadedCmps.Get(s))
  {
  }

  /**
   * After a failure the declared entry and the loaded table are untouched, and the
   * next request starts a fresh load with the same configured loader and a new promise.
   */
  lemma FailureIsRetriable(st: State, sel: Selector, createInstance: bool)
    requires Inv(st)
    requires sel in st.elementsLoading
    ensures var f := FailureStep(st, sel);
      && f.componentsToLoad == st.componentsToLoad
      && f.loadedCmps == st.loadedCmps
      && RequestStep(f, sel, createInstance).out == Ok(Started(st.nextTicket, st.componentsToLoad.Get(sel)))
      && st.nextTicket != st.elementsLoading[sel]
  {
  }

  /**
   * The synchronous-throw path as written: once the rejected promise is stored,
   * every later request for the selector joins it and no new load is ever started.
   */
  lemma SyncLoaderThrowPoisonsSelector(st: State, sel: Selector, c: bool, again: bool)
    requires Inv(st)
    requires sel !in st.elementsLoading && st.componentsToLoad.Has(sel)
    ensures var started := RequestStep(st, sel, c);
      var thrown := SyncLoaderThrowAsWritten(started.next, sel);
      && started.out == Ok(Started(st.nextTicket, st.componentsToLoad.Get(sel)))
      && RequestStep(thrown, sel, again).out == Ok(Joined(st.nextTicket))
      && !RequestStep(thrown, sel, again).out.value.Started?
  {
  }
}
