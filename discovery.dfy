/**
 * `loadContainedCustomElements`: which selectors occur under a root element,
 * and the fan-out of one `loadComponent(s)` call per discovered selector.
 *
 * The DOM test `element.querySelector(s)` is abstracted as membership of `s`
 * in `present`, the set of selectors that match something under the root.
 */
module Discovery {
  import opened Results
  import opened OrderedMaps
  import opened Loader

  /**
   * The declared selectors present under the root in declaration order, then
   * the loaded selectors present under the root in load order.
   */
  function Discover(st: State, present: set<Selector>): (r: seq<Selector>)
    ensures forall s :: s in r <==> s in present && (s in st.componentsToLoad.keys || s in st.loadedCmps.keys)
  {
    var unregisteredSelectors := Filter(st.componentsToLoad.keys, present);
    var alreadyRegistered := Filter(st.loadedCmps.keys, present);
    unregisteredSelectors + alreadyRegistered
  }

  /** The state after a batch of requests and their answers, or the first error thrown. */
  datatype Batch = Batch(next: State, out: Result<seq<Response>, LoadError>)

  /**
   * `sels.map(s => this.loadComponent(s))`: requests in order without an element;
   * a synchronous throw stops the batch and propagates, the earlier requests' effects remain.
   */
  function RequestEach(st: State, sels: seq<Selector>): (r: Batch)
    ensures Inv(st) ==> Inv(r.next)
    ensures r.next.componentsToLoad == st.componentsToLoad && r.next.loadedCmps == st.loadedCmps
    ensures r.out.Ok? ==> |r.out.value| == |sels|
    decreases |sels|
  {
    if sels == [] then Batch(st, Ok([]))
    else
      var first := RequestStep(st, sels[0], false);
      if first.out.Err? then Batch(first.next, Err(first.out.error))
      else
        var rest := RequestEach(first.next, sels[1..]);
        Batch(rest.next, if rest.out.Ok? then Ok([first.out.value] + rest.out.value) else rest.out)
  }

  /** `loadContainedCustomElements(element)` before the promises are joined. */
  function LoadContained(st: State, present: set<Selector>): (r: Batch)
    ensures Inv(st) ==> Inv(r.next)
    ensures r.next.componentsToLoad == st.componentsToLoad && r.next.loadedCmps == st.loadedCmps
    ensures r.out.Ok? ==> |r.out.value| == |Discover(st, present)|
  {
    RequestEach(st, Discover(st, present))
  }

  /** `Filter` distributes over concatenation. */
  lemma {:induction false} FilterAppend(a: seq<Selector>, b: seq<Selector>, keep: set<Selector>)
    ensures Filter(a + b, keep) == Filter(a, keep) + Filter(b, keep)
  {
    if a == [] {
      assert a + b == b;
    } else {
      assert (a + b)[0] == a[0];
      assert (a + b)[1..] == a[1..] + b;
      FilterAppend(a[1..], b, keep);
    }
  }

  /** Filtering by a set that holds every element keeps the sequence; by a disjoint set, empties it. */
  lemma {:induction false} FilterAllOrNone(a: seq<Selector>, keep: set<Selector>)
    ensures (forall x :: x in a ==> x in keep) ==> Filter(a, keep) == a
    ensures (forall x :: x in a ==> x !in keep) ==> Filter(a, keep) == []
  {
    if a != [] {
      FilterAllOrNone(a[1..], keep);
    }
  }

  /**
   * A selector is discovered exactly when it is present under the root and either
   * declared or loaded; none is discovered twice.
   */
  lemma DiscoverFindsPresentKnown(st: State, present: set<Selector>)
    requires Inv(st)
    ensures var d := Discover(st, present);
      && (forall s :: s in d <==> s in present && (st.componentsToLoad.Has(s) || st.loadedCmps.Has(s)))
      && Distinct(d)
  {
    var a := Filter(st.componentsToLoad.keys, present);
    var b := Filter(st.loadedCmps.keys, present);
    var d := a + b;
    forall i, j | 0 <= i < j < |d| ensures d[i] != d[j] {
      if j < |a| {
        assert d[i] == a[i] && d[j] == a[j];
      } else if i >= |a| {
        assert d[i] == b[i - |a|] && d[j] == b[j - |a|];
      } else {
        assert d[i] == a[i] && d[j] == b[j - |a|];
        assert st.componentsToLoad.Has(d[i]) && st.loadedCmps.Has(d[j]);
      }
    }
  }

  /** The selectors a discovery finds split into the declared ones, then the loaded ones. */
  lemma DiscoverSplits(st: State, present: set<Selector>)
    requires Inv(st)
    ensures var a := Filter(st.componentsToLoad.keys, present);
      var b := Filter(st.loadedCmps.keys, present);
      && (forall x :: x in a ==> st.componentsToLoad.Has(x) && !st.loadedCmps.Has(x))
      && (forall x :: x in b ==> st.loadedCmps.Has(x) && !st.componentsToLoad.Has(x))
  {
  }

  /** Every declared selector found comes before every loaded one. */
  lemma DiscoverDeclaredFirst(st: State, present: set<Selector>)
    requires Inv(st)
    ensures var d := Discover(st, present);
      forall i, j :: 0 <= i < j < |d| && st.componentsToLoad.Has(d[j]) ==> st.componentsToLoad.Has(d[i])
  {
    var a := Filter(st.componentsToLoad.keys, present);
    var b := Filter(st.loadedCmps.keys, present);
    var d := a + b;
    DiscoverSplits(st, present);
    assert forall k :: |a| <= k < |d| ==> !st.componentsToLoad.Has(d[k]) by {
      assert forall k :: |a| <= k < |d| ==> d[k] == b[k - |a|];
    }
    assert forall k :: 0 <= k < |a| ==> st.componentsToLoad.Has(d[k]) by {
      assert forall k :: 0 <= k < |a| ==> d[k] == a[k];
    }
  }

  /** Filtering `a + b` by a set that holds all of `a` and nothing of `b` gives back `a`. */
  lemma FilterPicksFirst(a: seq<Selector>, b: seq<Selector>, keep: set<Selector>)
    requires forall x :: x in a ==> x in keep
    requires forall x :: x in b ==> x !in keep
    ensures Filter(a + b, keep) == a
  {
    FilterAppend(a, b, keep);
    FilterAllOrNone(a, keep);
    FilterAllOrNone(b, keep);
    assert a + [] == a;
  }

  /** Filtering `a + b` by a set that holds all of `b` and nothing of `a` gives back `b`. */
  lemma FilterPicksSecond(a: seq<Selector>, b: seq<Selector>, keep: set<Selector>)
    requires forall x :: x in a ==> x !in keep
    requires forall x :: x in b ==> x in keep
    ensures Filter(a + b, keep) == b
  {
    FilterAppend(a, b, keep);
    FilterAllOrNone(a, keep);
    FilterAllOrNone(b, keep);
    assert [] + b == b;
  }

  /** Within each group the selectors found keep the insertion order of their table. */
  lemma DiscoverKeepsInsertionOrder(st: State, present: set<Selector>)
    requires Inv(st)
    ensures var d := Discover(st, present);
      && IsSubsequence(Filter(d, st.componentsToLoad.entries.Keys), st.componentsToLoad.keys)
      && IsSubsequence(Filter(d, st.loadedCmps.entries.Keys), st.loadedCmps.keys)
  {
    var declared := st.componentsToLoad.entries.Keys;
    var loaded := st.loadedCmps.entries.Keys;
    var a := Filter(st.componentsToLoad.keys, present);
    var b := Filter(st.loadedCmps.keys, present);
    assert Discover(st, present) == a + b;
    DiscoverSplits(st, present);
    forall x | x in a ensures x in declared && x !in loaded {
      assert st.componentsToLoad.Has(x) && !st.loadedCmps.Has(x);
    }
    forall x | x in b ensures x in loaded && x !in declared {
      assert st.loadedCmps.Has(x) && !st.componentsToLoad.Has(x);
    }
    FilterPicksFirst(a, b, declared);
    FilterPicksSecond(a, b, loaded);
  }

  /**
   * What a request without an element answers for a known selector: a load
   * promise (joined or new) when it is declared, `{selector, componentInstance: null}`
   * when it is loaded.
   */
  predicate AnswerFits(declared: OrderedMap<Selector, LazyComponentDef>, loaded: OrderedMap<Selector, ModuleRef>,
                       s: Selector, answer: Response) {
    && (declared.Has(s) ==> answer.Joined? || answer.Started?)
    && (loaded.Has(s) ==> answer == Ready(LoadedEvent(s, None)))
  }

  /** Every answer of `answers` fits the selector at the same position of `sels`. */
  predicate AllFit(declared: OrderedMap<Selector, LazyComponentDef>, loaded: OrderedMap<Selector, ModuleRef>,
                   sels: seq<Selector>, answers: seq<Response>) {
    |answers| == |sels| && forall i :: 0 <= i < |sels| ==> AnswerFits(declared, loaded, sels[i], answers[i])
  }

  lemma AllFitCons(declared: OrderedMap<Selector, LazyComponentDef>, loaded: OrderedMap<Selector, ModuleRef>,
                   sels: seq<Selector>, x: Response, rest: seq<Response>)
    requires sels != []
    requires AnswerFits(declared, loaded, sels[0], x)
    requires AllFit(declared, loaded, sels[1..], rest)
    ensures AllFit(declared, loaded, sels, [x] + rest)
  {
    forall i | 0 <= i < |sels| ensures AnswerFits(declared, loaded, sels[i], ([x] + rest)[i]) {
      if i > 0 {
        assert sels[i] == sels[1..][i - 1] && ([x] + rest)[i] == rest[i - 1];
      }
    }
  }

  /** A request without an element for a declared or loaded selector does not throw, and answers as `AnswerFits` says. */
  lemma KnownAnswered(st: State, s: Selector)
    requires Inv(st)
    requires st.componentsToLoad.Has(s) || st.loadedCmps.Has(s)
    ensures var out := RequestStep(st, s, false).out;
      out.Ok? && AnswerFits(st.componentsToLoad, st.loadedCmps, s, out.value)
  {
  }

  /**
   * Requesting selectors that are all declared or loaded never throws: each
   * declared one is answered with a load promise (joined or new), each loaded
   * one with `{selector, componentInstance: null}`.
   */
  lemma {:induction false} RequestEachAnswersAll(st: State, sels: seq<Selector>)
    requires Inv(st)
    requires forall s :: s in sels ==> st.componentsToLoad.Has(s) || st.loadedCmps.Has(s)
    ensures var r := RequestEach(st, sels);
      r.out.Ok? && AllFit(st.componentsToLoad, st.loadedCmps, sels, r.out.value)
    decreases |sels|
  {
    if sels != [] {
      var first := RequestStep(st, sels[0], false);
      KnownAnswered(st, sels[0]);
      assert forall s :: s in sels[1..] ==> s in sels;
      RequestEachAnswersAll(first.next, sels[1..]);
      var rest := RequestEach(first.next, sels[1..]);
      AllFitCons(st.componentsToLoad, st.loadedCmps, sels, first.out.value, rest.out.value);
    }
  }

  /**
   * Every declared selector of `sels` is in flight in `loading`, and the answer at
   * its position is a load promise: the very one stored for it there.
   */
  predicate TicketsFit(declared: OrderedMap<Selector, LazyComponentDef>, sels: seq<Selector>,
                       answers: seq<Response>, loading: map<Selector, Ticket>) {
    && |answers| == |sels|
    && forall i :: 0 <= i < |sels| && declared.Has(sels[i]) ==>
         && sels[i] in loading
         && (answers[i].Joined? || answers[i].Started?)
         && answers[i].ticket == loading[sels[i]]
  }

  lemma TicketsFitCons(declared: OrderedMap<Selector, LazyComponentDef>, sels: seq<Selector>,
                       x: Response, rest: seq<Response>, loading: map<Selector, Ticket>)
    requires sels != []
    requires declared.Has(sels[0]) ==>
      sels[0] in loading && (x.Joined? || x.Started?) && x.ticket == loading[sels[0]]
    requires TicketsFit(declared, sels[1..], rest, loading)
    ensures TicketsFit(declared, sels, [x] + rest, loading)
  {
    forall i | 0 <= i < |sels| && declared.Has(sels[i])
      ensures sels[i] in loading && (([x] + rest)[i].Joined? || ([x] + rest)[i].Started?)
      ensures ([x] + rest)[i].ticket == loading[sels[i]]
    {
      if i > 0 {
        assert sels[i] == sels[1..][i - 1] && ([x] + rest)[i] == rest[i - 1];
      }
    }
  }

  /** A request for a declared selector answers with the promise that is then stored for it. */
  lemma DeclaredAnsweredWithStored(st: State, s: Selector)
    requires Inv(st)
    requires st.componentsToLoad.Has(s)
    ensures var r := RequestStep(st, s, false);
      && r.out.Ok? && (r.out.value.Joined? || r.out.value.Started?)
      && s in r.next.elementsLoading && r.out.value.ticket == r.next.elementsLoading[s]
  {
  }

  /**
   * A batch of requests for known selectors: every load already in flight keeps
   * its promise, a load is in flight only if it was before or its selector was
   * requested, and each declared selector is answered with the promise stored for
   * it at the end of the batch, so requests for one selector share one promise.
   */
  lemma {:induction false} RequestEachTickets(st: State, sels: seq<Selector>)
    requires Inv(st)
    requires forall s :: s in sels ==> st.componentsToLoad.Has(s) || st.loadedCmps.Has(s)
    ensures var r := RequestEach(st, sels);
      && r.out.Ok?
      && (forall s :: s in st.elementsLoading ==>
            s in r.next.elementsLoading && r.next.elementsLoading[s] == st.elementsLoading[s])
      && (forall s :: s in r.next.elementsLoading ==> s in st.elementsLoading || s in sels)
      && TicketsFit(st.componentsToLoad, sels, r.out.value, r.next.elementsLoading)
    decreases |sels|
  {
    if sels != [] {
      var first := RequestStep(st, sels[0], false);
      KnownAnswered(st, sels[0]);
      if st.componentsToLoad.Has(sels[0]) {
        DeclaredAnsweredWithStored(st, sels[0]);
      }
      assert forall s :: s in sels[1..] ==> s in sels;
      RequestEachTickets(first.next, sels[1..]);
      var rest := RequestEach(first.next, sels[1..]);
      TicketsFitCons(st.componentsToLoad, sels, first.out.value, rest.out.value, rest.next.elementsLoading);
    }
  }

  /**
   * `loadContainedCustomElements` never throws: it answers every discovered
   * selector, in discovery order, and leaves the declared and loaded tables as they were.
   * Each declared selector found is answered with the promise of its own load, in
   * flight afterwards; two different selectors get two different promises, loads
   * already in flight keep theirs, and a load starts only for a selector found.
   */
  lemma LoadContainedAnswersAll(st: State, present: set<Selector>)
    requires Inv(st)
    ensures var d := Discover(st, present);
      var r := LoadContained(st, present);
      && r.out.Ok? && |r.out.value| == |d|
      && AllFit(st.componentsToLoad, st.loadedCmps, d, r.out.value)
      && TicketsFit(st.componentsToLoad, d, r.out.value, r.next.elementsLoading)
      && (forall s :: s in st.elementsLoading ==>
            s in r.next.elementsLoading && r.next.elementsLoading[s] == st.elementsLoading[s])
      && (forall s :: s in r.next.elementsLoading ==> s in st.elementsLoading || s in d)
      && (forall i, j :: 0 <= i < |d| && 0 <= j < |d| && i != j && st.componentsToLoad.Has(d[i]) && st.componentsToLoad.Has(d[j]) ==>
            r.out.value[i].ticket != r.out.value[j].ticket)
      && r.next.componentsToLoad == st.componentsToLoad && r.next.loadedCmps == st.loadedCmps
  {
    var d := Discover(st, present);
    DiscoverFindsPresentKnown(st, present);
    RequestEachAnswersAll(st, d);
    RequestEachTickets(st, d);
    var r := RequestEach(st, d);
    assert Inv(r.next);
  }

  /** The registry of the example below: `a` and `b` declared, in that order, and `c` loaded. */
  function ExampleState(a: Selector, b: Selector, c: Selector): State {
    State(OrderedMap([a, b], map[a := LazyComponentDef(a, 0), b := LazyComponentDef(b, 1)]),
          OrderedMap([c], map[c := 7]), map[], 0, 0)
  }

  /** With only `b` and `c` under the root, discovery finds `b`, then `c`. */
  lemma ExampleDiscovers(a: Selector, b: Selector, c: Selector)
    requires a != b && a != c && b != c
    ensures Discover(ExampleState(a, b, c), {b, c}) == [b, c]
  {
    assert Filter([a, b], {b, c}) == [b] by {
      assert [a, b][1..] == [b];
      assert Filter([b][1..], {b, c}) == [];
    }
    assert Filter([c], {b, c}) == [c] by {
      assert Filter([c][1..], {b, c}) == [];
    }
  }

  /**
   * A worked example: one load starts, for `b`, and two answers come
   * back, a new load promise for `b` and then `{selector: c, componentInstance: null}`.
   */
  lemma ExampleLoadsOnlyAbsentDeclared(a: Selector, b: Selector, c: Selector)
    requires a != b && a != c && b != c
    ensures var r := LoadContained(ExampleState(a, b, c), {b, c});
      && r.out == Ok([Started(0, LazyComponentDef(b, 1)), Ready(LoadedEvent(c, None))])
      && r.next.elementsLoading == map[b := 0]
  {
    var st := ExampleState(a, b, c);
    ExampleDiscovers(a, b, c);
    var afterB := RequestStep(st, b, false);
    assert afterB.out == Ok(Started(0, LazyComponentDef(b, 1)));
    var afterC := RequestStep(afterB.next, c, false);
    assert afterC.out == Ok(Ready(LoadedEvent(c, None))) && afterC.next == afterB.next;
    assert [b, c][1..] == [c] && [c][1..] == [];
    assert RequestEach(afterB.next, [c]) == Batch(afterC.next, Ok([Ready(LoadedEvent(c, None))])) by {
      assert RequestEach(afterC.next, []) == Batch(afterC.next, Ok([]));
      assert [Ready(LoadedEvent(c, None))] + [] == [Ready(LoadedEvent(c, None))];
    }
    assert [b, c][0] == b;
    assert RequestEach(st, [b, c]) == Batch(afterC.next, Ok([afterB.out.value] + [Ready(LoadedEvent(c, None))]));
    assert [afterB.out.value] + [Ready(LoadedEvent(c, None))] == [Started(0, LazyComponentDef(b, 1)), Ready(LoadedEvent(c, None))];
  }
}
