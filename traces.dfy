/**
 * Runs of the service: sequences of `loadComponent` calls interleaved with the
 * settling of loads in flight, the way cooperative scheduling interleaves them.
 * The lemmas state what holds over any such run: the invariant, one loader
 * invocation per selector while its load is in flight, one promise shared by all
 * its callers, no second load after a success, and no resolution of a promise
 * whose load failed.
 */
module Traces {
  import opened Results
  import opened Loader

  /** A call of `loadComponent`, or the end of the load in flight for a selector. */
  datatype Event =
    | Request(sel: Selector, createInstance: bool)
    | Succeed(sel: Selector, moduleRef: ModuleRef)
    | Fail(sel: Selector)

  /**
   * A load can only settle while it is in flight: its callbacks exist only from its start on.
   * A load whose `loadChildren` threw synchronously has no callbacks at all; a run of the
   * source on that path is a run here with no `Succeed` or `Fail` for that selector, so
   * `Loader.FailureIsRetriable` does not speak for it (see `Loader.SyncLoaderThrowPoisonsSelector`).
   */
  predicate Enabled(st: State, e: Event) {
    e.Request? || e.sel in st.elementsLoading
  }

  function Apply(st: State, e: Event): (r: State)
    requires Enabled(st, e)
    ensures Inv(st) ==> Inv(r)
  {
    match e
    case Request(s, c) => RequestStep(st, s, c).next
    case Succeed(s, m) => SuccessStep(st, s, m).next
    case Fail(s) => FailureStep(st, s)
  }

  /** Every event of `es` can happen, in turn, from `st`. */
  predicate Feasible(st: State, es: seq<Event>)
    decreases |es|
  {
    es == [] || (Enabled(st, es[0]) && Feasible(Apply(st, es[0]), es[1..]))
  }

  function Run(st: State, es: seq<Event>): State
    requires Feasible(st, es)
    decreases |es|
  {
    if es == [] then st else Run(Apply(st, es[0]), es[1..])
  }

  /** `e` ends the load of `sel`. */
  predicate Settles(e: Event, sel: Selector) {
    (e.Succeed? || e.Fail?) && e.sel == sel
  }

  /** `e` is a request for `sel` that invokes its loader. */
  predicate StartsLoad(st: State, e: Event, sel: Selector) {
    && e.Request? && e.sel == sel
    && var out := RequestStep(st, sel, e.createInstance).out;
       out.Ok? && out.value.Started?
  }

  /** The promises of loads handed to the requests for `sel` in `es`. */
  function HandlesFor(st: State, es: seq<Event>, sel: Selector): set<Ticket>
    requires Feasible(st, es)
    decreases |es|
  {
    if es == [] then {}
    else
      var e := es[0];
      var here :=
        if e.Request? && e.sel == sel then
          var out := RequestStep(st, sel, e.createInstance).out;
          if out.Ok? && (out.value.Joined? || out.value.Started?) then {out.value.ticket} else {}
        else {};
      here + HandlesFor(Apply(st, e), es[1..], sel)
  }

  /** What each request for `sel` in `es` gets back, in order. */
  function AnswersFor(st: State, es: seq<Event>, sel: Selector): seq<Result<Response, LoadError>>
    requires Feasible(st, es)
    decreases |es|
  {
    if es == [] then []
    else
      var e := es[0];
      var here := if e.Request? && e.sel == sel then [RequestStep(st, sel, e.createInstance).out] else [];
      here + AnswersFor(Apply(st, e), es[1..], sel)
  }

  /** How many times the loader of `sel` is invoked in `es`. */
  function Starts(st: State, es: seq<Event>, sel: Selector): nat
    requires Feasible(st, es)
    decreases |es|
  {
    if es == [] then 0
    else (if StartsLoad(st, es[0], sel) then 1 else 0) + Starts(Apply(st, es[0]), es[1..], sel)
  }

  /** The promises resolved in `es`. */
  function Resolved(st: State, es: seq<Event>): set<Ticket>
    requires Feasible(st, es)
    decreases |es|
  {
    if es == [] then {}
    else
      var e := es[0];
      (if e.Succeed? then {st.elementsLoading[e.sel]} else {}) + Resolved(Apply(st, e), es[1..])
  }

  /** The element `document.createElement` hands to `e`, if `e` asks a loaded selector for one. */
  function CreatedBy(st: State, e: Event): seq<Element> {
    if e.Request? then
      var out := RequestStep(st, e.sel, e.createInstance).out;
      if out.Ok? && out.value.Ready? && out.value.event.componentInstance.Some? then
        [out.value.event.componentInstance.value]
      else []
    else []
  }

  /** The elements handed out in `es`, in order. */
  function Created(st: State, es: seq<Event>): seq<Element>
    requires Feasible(st, es)
    decreases |es|
  {
    if es == [] then [] else CreatedBy(st, es[0]) + Created(Apply(st, es[0]), es[1..])
  }

  /** An event hands out at most the next element identity, and moves the counter past it. */
  lemma ApplyCreates(st: State, e: Event)
    requires Enabled(st, e)
    ensures CreatedBy(st, e) == [] || CreatedBy(st, e) == [st.nextElement]
    ensures Apply(st, e).nextElement == st.nextElement + |CreatedBy(st, e)|
  {
  }

  /** `xs` lies in `[lo, hi)` and strictly increases. */
  predicate IncreasingWithin(xs: seq<Element>, lo: nat, hi: nat) {
    && (forall i :: 0 <= i < |xs| ==> lo <= xs[i] < hi)
    && (forall i, j :: 0 <= i < j < |xs| ==> xs[i] < xs[j])
  }

  lemma IncreasingCons(here: seq<Element>, tail: seq<Element>, lo: nat, hi: nat)
    requires here == [] || here == [lo]
    requires IncreasingWithin(tail, lo + |here|, hi)
    requires here != [] ==> lo < hi
    ensures IncreasingWithin(here + tail, lo, hi)
  {
    var c := here + tail;
    forall i | 0 <= i < |c| ensures lo <= c[i] < hi {
      if i >= |here| {
        assert c[i] == tail[i - |here|];
      }
    }
    forall i, j | 0 <= i < j < |c| ensures c[i] < c[j] {
      assert c[j] == tail[j - |here|];
      if i >= |here| {
        assert c[i] == tail[i - |here|];
      }
    }
  }

  /**
   * `createInstance` gives a freshly constructed element on each call: over any
   * run, the elements handed out are new (not handed out before the run) and
   * strictly increasing, so no two calls ever get the same one.
   */
  lemma {:induction false} CreatedFresh(st: State, es: seq<Event>)
    requires Feasible(st, es)
    ensures Run(st, es).nextElement == st.nextElement + |Created(st, es)|
    ensures IncreasingWithin(Created(st, es), st.nextElement, Run(st, es).nextElement)
    decreases |es|
  {
    if es != [] {
      var next := Apply(st, es[0]);
      ApplyCreates(st, es[0]);
      CreatedFresh(next, es[1..]);
      IncreasingCons(CreatedBy(st, es[0]), Created(next, es[1..]), st.nextElement, Run(st, es).nextElement);
    }
  }

  /** Every operation keeps the invariant, over any run. */
  lemma {:induction false} RunKeepsInv(st: State, es: seq<Event>)
    requires Inv(st) && Feasible(st, es)
    ensures Inv(Run(st, es))
    decreases |es|
  {
    if es != [] {
      RunKeepsInv(Apply(st, es[0]), es[1..]);
    }
  }

  /** A selector that is not declared never has its loader invoked, whatever happens next. */
  lemma {:induction false} UndeclaredNeverStarts(st: State, es: seq<Event>, sel: Selector)
    requires Feasible(st, es)
    requires !st.componentsToLoad.Has(sel)
    ensures Starts(st, es, sel) == 0
    decreases |es|
  {
    if es != [] {
      var next := Apply(st, es[0]);
      assert !next.componentsToLoad.Has(sel);
      UndeclaredNeverStarts(next, es[1..], sel);
    }
  }

  /** Once the load of a selector succeeded, its loader is never invoked again. */
  lemma NeverLoadedAgain(st: State, sel: Selector, moduleRef: ModuleRef, es: seq<Event>)
    requires sel in st.elementsLoading
    requires Feasible(SuccessStep(st, sel, moduleRef).next, es)
    ensures Starts(SuccessStep(st, sel, moduleRef).next, es, sel) == 0
  {
    UndeclaredNeverStarts(SuccessStep(st, sel, moduleRef).next, es, sel);
  }

  /**
   * While a selector's load is in flight and does not settle, every request for it
   * joins the stored promise and none invokes its loader; the load stays in flight
   * with that promise.
   */
  lemma {:induction false} InFlightOnlyJoins(st: State, es: seq<Event>, sel: Selector)
    requires Feasible(st, es)
    requires sel in st.elementsLoading
    requires forall i :: 0 <= i < |es| ==> !Settles(es[i], sel)
    ensures Starts(st, es, sel) == 0
    ensures HandlesFor(st, es, sel) <= {st.elementsLoading[sel]}
    ensures forall a :: a in AnswersFor(st, es, sel) ==> a == Ok(Joined(st.elementsLoading[sel]))
    ensures sel in Run(st, es).elementsLoading && Run(st, es).elementsLoading[sel] == st.elementsLoading[sel]
    decreases |es|
  {
    if es != [] {
      var next := Apply(st, es[0]);
      assert !Settles(es[0], sel);
      assert sel in next.elementsLoading && next.elementsLoading[sel] == st.elementsLoading[sel];
      InFlightOnlyJoins(next, es[1..], sel);
    }
  }

  lemma SubsetOfSingleton(handles: set<Ticket>, t: Ticket)
    requires handles <= {t}
    ensures |handles| <= 1
  {
    if t in handles {
      assert handles == {t};
    } else {
      assert handles == {};
    }
  }

  /**
   * A request that starts a load, followed by a run in which that load does not
   * settle: the first request gets the new promise, every later request for the
   * selector joins it, and the load is still in flight with it at the end.
   */
  lemma StartThenJoins(st: State, es: seq<Event>, sel: Selector)
    requires Feasible(st, es) && es != []
    requires StartsLoad(st, es[0], sel)
    requires forall i :: 0 <= i < |es| ==> !Settles(es[i], sel)
    ensures Starts(st, es, sel) == 1
    ensures HandlesFor(st, es, sel) <= {st.nextTicket}
    ensures var answers := AnswersFor(st, es, sel);
      && |answers| >= 1
      && answers[0] == Ok(Started(st.nextTicket, st.componentsToLoad.Get(sel)))
      && (forall i :: 1 <= i < |answers| ==> answers[i] == Ok(Joined(st.nextTicket)))
    ensures sel in Run(st, es).elementsLoading && Run(st, es).elementsLoading[sel] == st.nextTicket
  {
    var next := Apply(st, es[0]);
    assert next.elementsLoading[sel] == st.nextTicket;
    assert forall i :: 0 <= i < |es[1..]| ==> es[1..][i] == es[i + 1];
    InFlightOnlyJoins(next, es[1..], sel);
    var tail := AnswersFor(next, es[1..], sel);
    var answers := AnswersFor(st, es, sel);
    assert answers == [RequestStep(st, sel, es[0].createInstance).out] + tail;
    forall i | 1 <= i < |answers| ensures answers[i] == Ok(Joined(st.nextTicket)) {
      assert answers[i] == tail[i - 1] && tail[i - 1] in tail;
    }
  }

  /**
   * Deduplication: as long as no load of a selector settles, its loader is invoked
   * at most once and all requests for it share at most one promise.
   */
  lemma {:induction false} AtMostOneLoad(st: State, es: seq<Event>, sel: Selector)
    requires Feasible(st, es)
    requires forall i :: 0 <= i < |es| ==> !Settles(es[i], sel)
    ensures Starts(st, es, sel) <= 1
    ensures |HandlesFor(st, es, sel)| <= 1
    decreases |es|
  {
    if sel in st.elementsLoading {
      InFlightOnlyJoins(st, es, sel);
      SubsetOfSingleton(HandlesFor(st, es, sel), st.elementsLoading[sel]);
    } else if es != [] {
      if StartsLoad(st, es[0], sel) {
        StartThenJoins(st, es, sel);
        SubsetOfSingleton(HandlesFor(st, es, sel), st.nextTicket);
      } else {
        var next := Apply(st, es[0]);
        assert sel !in next.elementsLoading;
        assert forall i :: 0 <= i < |es[1..]| ==> es[1..][i] == es[i + 1];
        AtMostOneLoad(next, es[1..], sel);
      }
    }
  }

  /**
   * When a declared selector not in flight is requested at least once and its load
   * does not settle, its loader is invoked exactly once.
   */
  lemma {:induction false} RequestedDeclaredStartsOnce(st: State, es: seq<Event>, sel: Selector, k: nat)
    requires Feasible(st, es)
    requires st.componentsToLoad.Has(sel) && sel !in st.elementsLoading
    requires forall i :: 0 <= i < |es| ==> !Settles(es[i], sel)
    requires k < |es| && es[k].Request? && es[k].sel == sel
    ensures Starts(st, es, sel) == 1
    decreases |es|
  {
    var next := Apply(st, es[0]);
    if StartsLoad(st, es[0], sel) {
      StartThenJoins(st, es, sel);
    } else {
      assert k > 0;
      assert next.componentsToLoad.Has(sel) && sel !in next.elementsLoading;
      RequestedDeclaredStartsOnce(next, es[1..], sel, k - 1);
    }
  }

  /**
   * A promise that is no longer in flight is never resolved later: once a load
   * failed, nothing ever settles the promise its callers hold.
   */
  lemma {:induction false} RetiredHandleNeverResolved(st: State, es: seq<Event>, t: Ticket)
    requires Inv(st) && Feasible(st, es)
    requires t < st.nextTicket
    requires forall s :: s in st.elementsLoading ==> st.elementsLoading[s] != t
    ensures t !in Resolved(st, es)
    decreases |es|
  {
    if es != [] {
      var next := Apply(st, es[0]);
      RetiredHandleNeverResolved(next, es[1..], t);
    }
  }

  /** The promise of a failed load is never resolved, whatever happens next. */
  lemma FailedHandleNeverResolved(st: State, sel: Selector, es: seq<Event>)
    requires Inv(st)
    requires sel in st.elementsLoading
    requires Feasible(FailureStep(st, sel), es)
    ensures st.elementsLoading[sel] !in Resolved(FailureStep(st, sel), es)
  {
    RetiredHandleNeverResolved(FailureStep(st, sel), es, st.elementsLoading[sel]);
  }
}
