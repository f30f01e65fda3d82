/**
 * `ComponentLoaderService` itself: three tables held in fields and updated in
 * place. Each method's contract ties the new fields to the transition of the
 * same name in module `Loader`, where the properties of those transitions are
 * proved; the class keeps `Inv` as its invariant.
 */
module Service {
  import opened Results
  import opened OrderedMaps
  import opened Loader
  import opened Discovery

  class ComponentLoaderService {
    /** Declared selectors and their routes, in declaration order. */
    var componentsToLoad: OrderedMap<Selector, LazyComponentDef>
    /** Selectors whose load finished, in the order they finished. */
    var loadedCmps: OrderedMap<Selector, ModuleRef>
    /** Selectors with a load in flight, each with the promise all its callers share. */
    var elementsLoading: map<Selector, Ticket>
    /** The identity the next `new Promise` receives. */
    var nextTicket: Ticket
    /** The identity the next `document.createElement` returns. */
    var nextElement: Element

    /** The fields as a `Loader.State`. */
    function Snapshot(): State
      reads this
    {
      State(componentsToLoad, loadedCmps, elementsLoading, nextTicket, nextElement)
    }

    ghost predicate Valid()
      reads this
    {
      Inv(Snapshot())
    }

    /** Files every configured route under its selector; a later route for a selector replaces the earlier one. */
    constructor (elementModulePaths: seq<LazyComponentDef>)
      ensures Valid()
      ensures Snapshot() == Initial(elementModulePaths)
    {
      var paths: OrderedMap<Selector, LazyComponentDef> := Empty();
      var i := 0;
      while i < |elementModulePaths|
        invariant 0 <= i <= |elementModulePaths|
        invariant paths == Indexed(elementModulePaths[..i])
      {
        var route := elementModulePaths[i];
        assert elementModulePaths[..i + 1][..i] == elementModulePaths[..i];
        paths := paths.Set(route.selector, route);
        i := i + 1;
      }
      assert elementModulePaths[..i] == elementModulePaths;
      componentsToLoad := paths;
      loadedCmps := Empty();
      elementsLoading := map[];
      nextTicket := 0;
      nextElement := 0;
    }

    /** `loadComponent(componentTag, createInstance)`: the synchronous part, up to the returned promise. */
    method LoadComponent(componentTag: Selector, createInstance: bool) returns (r: Result<Response, LoadError>)
      requires Valid()
      modifies this
      ensures Valid()
      ensures Snapshot() == RequestStep(old(Snapshot()), componentTag, createInstance).next
      ensures r == RequestStep(old(Snapshot()), componentTag, createInstance).out
    {
      ghost var goal := RequestStep(Snapshot(), componentTag, createInstance);
      if componentTag in elementsLoading {
        return Ok(Joined(elementsLoading[componentTag]));
      }
      if componentsToLoad.Has(componentTag) {
        var cmpRegistryEntry := componentsToLoad.Get(componentTag);
        var loadPromise := nextTicket;
        nextTicket := nextTicket + 1;
        elementsLoading := elementsLoading[componentTag := loadPromise];
        assert Snapshot() == goal.next;
        return Ok(Started(loadPromise, cmpRegistryEntry));
      } else if loadedCmps.Has(componentTag) {
        var componentInstance: Option<Element> := None;
        if createInstance {
          componentInstance := Some(nextElement);
          nextElement := nextElement + 1;
        }
        assert Snapshot() == goal.next;
        return Ok(Ready(LoadedEvent(componentTag, componentInstance)));
      } else {
        return Err(UnrecognizedComponent(UnrecognizedMessage(componentTag)));
      }
    }

    /**
     * The load in flight for `componentTag` reached `whenDefined`: the selector is
     * remembered as loaded, its promise resolved with `{selector, componentInstance: null}`,
     * and its in-flight and declared entries deleted.
     */
    method CompleteSuccess(componentTag: Selector, elementModuleRef: ModuleRef) returns (resolved: Ticket, event: LoadedEvent)
      requires Valid()
      requires componentTag in elementsLoading
      modifies this
      ensures Valid()
      ensures var s := SuccessStep(old(Snapshot()), componentTag, elementModuleRef);
        Snapshot() == s.next && resolved == s.resolved && event == s.event
    {
      ghost var goal := SuccessStep(Snapshot(), componentTag, elementModuleRef);
      resolved := elementsLoading[componentTag];
      loadedCmps := loadedCmps.Set(componentTag, elementModuleRef);
      var componentInstance: Option<Element> := None;
      event := LoadedEvent(componentTag, componentInstance);
      elementsLoading := elementsLoading - {componentTag};
      componentsToLoad := componentsToLoad.Delete(componentTag);
      assert Snapshot() == goal.next;
    }

    /** A step of the load in flight for `componentTag` failed: only its in-flight entry is deleted. */
    method CompleteFailure(componentTag: Selector)
      requires Valid()
      requires componentTag in elementsLoading
      modifies this
      ensures Valid()
      ensures Snapshot() == FailureStep(old(Snapshot()), componentTag)
    {
      elementsLoading := elementsLoading - {componentTag};
    }

    /**
     * `loadContainedCustomElements(element)`, with the selectors matching under
     * `element` given as `present`: requests every discovered selector in order,
     * without an element, and collects the promises.
     */
    method LoadContainedCustomElements(present: set<Selector>) returns (r: Result<seq<Response>, LoadError>)
      requires Valid()
      modifies this
      ensures Valid()
      ensures Snapshot() == LoadContained(old(Snapshot()), present).next
      ensures r == LoadContained(old(Snapshot()), present).out
    {
      var unregisteredSelectors := Filter(componentsToLoad.keys, present);
      var alreadyRegistered := Filter(loadedCmps.keys, present);
      unregisteredSelectors := unregisteredSelectors + alreadyRegistered;
      ghost var goal := LoadContained(Snapshot(), present);
      assert goal == RequestEach(Snapshot(), unregisteredSelectors);
      assert unregisteredSelectors[0..] == unregisteredSelectors;
      assert goal.out.Ok? ==> [] + goal.out.value == goal.out.value;

      var responses: seq<Response> := [];
      var i := 0;
      while i < |unregisteredSelectors|
        invariant 0 <= i <= |unregisteredSelectors|
        invariant Valid()
        invariant goal == Prepend(responses, RequestEach(Snapshot(), unregisteredSelectors[i..]))
      {
        ghost var before := Snapshot();
        ghost var rest := unregisteredSelectors[i..];
        assert rest[0] == unregisteredSelectors[i] && rest[1..] == unregisteredSelectors[i + 1..];
        RequestEachUnfold(before, rest);
        var answer := LoadComponent(unregisteredSelectors[i], false);
        if answer.Err? {
          return Err(answer.error);
        }
        PrependTwice(responses, answer.value, RequestEach(Snapshot(), unregisteredSelectors[i + 1..]));
        responses := responses + [answer.value];
        i := i + 1;
      }
      assert unregisteredSelectors[i..] == [];
      assert RequestEach(Snapshot(), []) == Batch(Snapshot(), Ok([]));
      assert responses + [] == responses;
      return Ok(responses);
    }
  }

  /** `acc` followed by the answers of `b`, if `b` threw nothing. */
  function Prepend(acc: seq<Response>, b: Batch): Batch {
    Batch(b.next, if b.out.Ok? then Ok(acc + b.out.value) else b.out)
  }

  /** One request of a batch, then the rest of it. */
  lemma RequestEachUnfold(st: State, sels: seq<Selector>)
    requires sels != []
    ensures var first := RequestStep(st, sels[0], false);
      RequestEach(st, sels) ==
        if first.out.Err? then Batch(first.next, Err(first.out.error))
        else Prepend([first.out.value], RequestEach(first.next, sels[1..]))
  {
  }

  lemma PrependTwice(acc: seq<Response>, x: Response, b: Batch)
    ensures Prepend(acc, Prepend([x], b)) == Prepend(acc + [x], b)
  {
    if b.out.Ok? {
      assert acc + ([x] + b.out.value) == (acc + [x]) + b.out.value;
    }
  }
}
