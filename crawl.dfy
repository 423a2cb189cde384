/**
 * What both crawl loops share: the trace of requests, saved files and
 * pauses a run leaves behind, the fold of per-item steps into a run (with
 * an uncaught parse error ending the run), and the per-book pipeline both
 * scripts repeat inside their loops (fetch the book page, parse it, fetch
 * and save the text, then fetch and save the cover).
 */
module Crawl {
  import opened Wrappers
  import opened Tululu

  /** Which call a request or a saved file belongs to. */
  datatype Resource = CategoryPage | BookPage | BookText | Cover

  /** One observable effect of a run: a GET request issued, a file written, or `time.sleep(3)`. */
  datatype Event = Fetched(what: Resource, request: Request) | Saved(what: Resource, path: string) | Slept

  /**
   * How one item of a loop ends: a book to keep, a page that was fetched,
   * a `continue` after a caught exception, or an exception nothing catches.
   */
  datatype Outcome = Record(book: Book) | Done | Skipped(cause: NetError) | Fatal(fault: ParseError)

  /** The effects of one loop item, in order, and how it ended. */
  datatype Step = Step(events: seq<Event>, outcome: Outcome)

  /** The state of a run: the books collected, all effects so far, and the exception that ended it, if any. */
  datatype Run = Run(books: seq<Book>, events: seq<Event>, fatal: Option<ParseError>)

  /** The `time.sleep(3)` that only the `ConnectionError` handlers perform. */
  function Pause(e: NetError): seq<Event> {
    if e == ConnectionError then [Slept] else []
  }

  /** Only a `ConnectionError` pauses, once, and a pause is nothing but sleeping. */
  lemma PauseSpec(e: NetError)
    ensures var events := Pause(e);
      && (Slept in events <==> e == ConnectionError)
      && multiset(events)[Slept] == (if e == ConnectionError then 1 else 0)
      && forall k :: 0 <= k < |events| ==> events[k] == Slept
  {
  }

  /** The book a step contributes to the collected list. */
  function KeptBy(step: Step): seq<Book> {
    if step.outcome.Record? then [step.outcome.book] else []
  }

  /** A step added to a run; once an exception has escaped, nothing else happens. */
  function Then(run: Run, step: Step): Run {
    if run.fatal.Some? then run
    else Run(run.books + KeptBy(step), run.events + step.events,
             if step.outcome.Fatal? then Some(step.outcome.fault) else None)
  }

  /** The run that performs `steps` in order. */
  function Collect(steps: seq<Step>): Run {
    if steps == [] then Run([], [], None)
    else Then(Collect(steps[..|steps| - 1]), steps[|steps| - 1])
  }

  /** Reference: the books of every step that ended with one, in step order. */
  function Kept(steps: seq<Step>): seq<Book> {
    if steps == [] then [] else Kept(steps[..|steps| - 1]) + KeptBy(steps[|steps| - 1])
  }

  /** Reference: the effects of every step, in step order. */
  function AllEvents(steps: seq<Step>): seq<Event> {
    if steps == [] then [] else AllEvents(steps[..|steps| - 1]) + steps[|steps| - 1].events
  }

  predicate NoFatal(steps: seq<Step>) {
    forall k :: 0 <= k < |steps| ==> !steps[k].outcome.Fatal?
  }

  /** The requests of kind `what` among `events`, in the order they were issued. */
  function Requests(events: seq<Event>, what: Resource): seq<Request> {
    if events == [] then []
    else RequestOf(events[0], what) + Requests(events[1..], what)
  }

  /** The request `e` issued, if it is one of kind `what`. */
  function RequestOf(e: Event, what: Resource): seq<Request> {
    if e.Fetched? && e.what == what then [e.request] else []
  }

  lemma CollectSnoc(steps: seq<Step>, s: Step)
    ensures Collect(steps + [s]) == Then(Collect(steps), s)
  {
    assert (steps + [s])[..|steps|] == steps;
  }

  lemma KeptSnoc(steps: seq<Step>, s: Step)
    ensures Kept(steps + [s]) == Kept(steps) + KeptBy(s)
    ensures AllEvents(steps + [s]) == AllEvents(steps) + s.events
    ensures ConnectionSkips(steps + [s]) == ConnectionSkips(steps) + ConnectionSkips([s])
  {
    assert (steps + [s])[..|steps|] == steps;
    assert [s][..0] == [];
  }

  /**
   * A run that no exception ended performed every step: it collected
   * exactly the books of the steps that kept one and every effect of
   * every step; and it is ended exactly when some step raised.
   */
  lemma {:induction false} CollectNoFatal(steps: seq<Step>)
    ensures Collect(steps).fatal.None? <==> NoFatal(steps)
    ensures NoFatal(steps) ==> Collect(steps) == Run(Kept(steps), AllEvents(steps), None)
  {
    if steps != [] {
      var init := steps[..|steps| - 1];
      CollectNoFatal(init);
      assert NoFatal(steps) <==> NoFatal(init) && !steps[|steps| - 1].outcome.Fatal?;
    }
  }

  /** Once an exception has escaped, later steps change nothing. */
  lemma {:induction false} CollectFatalPrefix(p: seq<Step>, q: seq<Step>)
    requires p <= q && Collect(p).fatal.Some?
    ensures Collect(q) == Collect(p)
    decreases |q|
  {
    if |q| == |p| {
      assert q == p;
    } else {
      var init := q[..|q| - 1];
      assert p == init[..|p|];
      CollectFatalPrefix(p, init);
    }
  }

  /**
   * The first step that raises ends the run: the books are those kept
   * before it, the effects are those up to and including it.
   */
  lemma {:induction false} CollectFirstFatal(steps: seq<Step>, k: nat)
    requires k < |steps| && steps[k].outcome.Fatal? && NoFatal(steps[..k])
    ensures Collect(steps) == Run(Kept(steps[..k]), AllEvents(steps[..k + 1]), Some(steps[k].outcome.fault))
  {
    assert steps[..k + 1] == steps[..k] + [steps[k]];
    CollectNoFatal(steps[..k]);
    CollectSnoc(steps[..k], steps[k]);
    KeptSnoc(steps[..k], steps[k]);
    CollectFatalPrefix(steps[..k + 1], steps);
  }

  /** Whatever happens, a run's books and effects are a prefix of those of all its steps. */
  lemma {:induction false} CollectIsPrefix(steps: seq<Step>)
    ensures Collect(steps).books <= Kept(steps)
    ensures Collect(steps).events <= AllEvents(steps)
  {
    if steps != [] {
      var init := steps[..|steps| - 1];
      var last := steps[|steps| - 1];
      if Collect(init).fatal.Some? {
        CollectIsPrefix(init);
        var run := Collect(init);
        assert run.books == Kept(init)[..|run.books|] == Kept(steps)[..|run.books|];
        assert run.events == AllEvents(init)[..|run.events|] == AllEvents(steps)[..|run.events|];
      } else {
        CollectNoFatal(init);
      }
    }
  }

  lemma {:induction false} KeptAppend(a: seq<Step>, b: seq<Step>)
    ensures Kept(a + b) == Kept(a) + Kept(b)
    decreases |b|
  {
    if b == [] {
      assert a + b == a;
    } else {
      var init := b[..|b| - 1];
      assert (a + b)[..|a + b| - 1] == a + init;
      KeptAppend(a, init);
    }
  }

  lemma {:induction false} AllEventsAppend(a: seq<Step>, b: seq<Step>)
    ensures AllEvents(a + b) == AllEvents(a) + AllEvents(b)
    decreases |b|
  {
    if b == [] {
      assert a + b == a;
    } else {
      var init := b[..|b| - 1];
      assert (a + b)[..|a + b| - 1] == a + init;
      AllEventsAppend(a, init);
    }
  }

  lemma {:induction false} ConnectionSkipsAppend(a: seq<Step>, b: seq<Step>)
    ensures ConnectionSkips(a + b) == ConnectionSkips(a) + ConnectionSkips(b)
    decreases |b|
  {
    if b == [] {
      assert a + b == a;
    } else {
      var init := b[..|b| - 1];
      assert (a + b)[..|a + b| - 1] == a + init;
      ConnectionSkipsAppend(a, init);
    }
  }

  /** Extending both sides keeps a prefix a prefix. */
  lemma PrefixExtend(p: seq<Step>, a: seq<Step>, b: seq<Step>)
    requires a <= b
    ensures p + a <= p + b
  {
    assert p + a == (p + b)[..|p + a|];
  }

  lemma PrefixTrans(a: seq<Step>, b: seq<Step>, c: seq<Step>)
    requires a <= b && b <= c
    ensures a <= c
  {
    assert a == c[..|a|];
  }

  lemma {:induction false} RequestsAppend(a: seq<Event>, b: seq<Event>, what: Resource)
    ensures Requests(a + b, what) == Requests(a, what) + Requests(b, what)
  {
    if a == [] {
      assert a + b == b;
    } else {
      var ab := a + b;
      assert ab[0] == a[0];
      assert ab[1..] == a[1..] + b;
      RequestsAppend(a[1..], b, what);
    }
  }

  lemma {:induction false} NoRequestsOf(events: seq<Event>, what: Resource)
    requires forall k :: 0 <= k < |events| ==> !(events[k].Fetched? && events[k].what == what)
    ensures Requests(events, what) == []
  {
    if events != [] {
      NoRequestsOf(events[1..], what);
    }
  }

  lemma {:induction false} NoRequestsFrom(events: seq<Event>, i: nat, what: Resource)
    requires i <= |events|
    requires forall k :: i <= k < |events| ==> !(events[k].Fetched? && events[k].what == what)
    ensures Requests(events[i..], what) == []
    decreases |events| - i
  {
    if i < |events| {
      NoRequestsFrom(events, i + 1, what);
      assert events[i..][1..] == events[i + 1..];
    }
  }

  lemma FirstRequest(events: seq<Event>, what: Resource)
    requires events != []
    ensures Requests(events, what)
            == RequestOf(events[0], what) + Requests(events[1..], what)
  {
  }

  /** Fewer effects, fewer requests: the requests of a prefix are a prefix. */
  lemma RequestsPrefix(a: seq<Event>, b: seq<Event>, what: Resource)
    requires a <= b
    ensures Requests(a, what) <= Requests(b, what)
  {
    assert b == a + b[|a|..];
    RequestsAppend(a, b[|a|..], what);
  }

  /** The number of `time.sleep(3)` calls among `events`. */
  function Sleeps(events: seq<Event>): nat {
    multiset(events)[Slept]
  }

  /** A step pauses once if it was skipped after a `ConnectionError`, and otherwise not at all. */
  predicate PausesOnConnectionError(step: Step) {
    Sleeps(step.events) == if step.outcome == Skipped(ConnectionError) then 1 else 0
  }

  /** How many steps were skipped after a `ConnectionError`. */
  function ConnectionSkips(steps: seq<Step>): nat {
    if steps == [] then 0
    else ConnectionSkips(steps[..|steps| - 1]) + (if steps[|steps| - 1].outcome == Skipped(ConnectionError) then 1 else 0)
  }

  /**
   * `f` applied to each of `xs`, in order: the steps of a list of items,
   * the requests of a list of pages.
   */
  function Map<T, U>(f: T -> U, xs: seq<T>): (ys: seq<U>)
    ensures |ys| == |xs|
  {
    if xs == [] then [] else Map(f, xs[..|xs| - 1]) + [f(xs[|xs| - 1])]
  }

  /**
   * The steps of the pages from `first` up to, not including, `end`: each
   * page's own step, then the steps of the items found on it.
   */
  function Pages<T>(pageStep: int -> Step, items: int -> seq<T>, step: T -> Step, first: int, end: int): seq<Step>
    decreases end - first
  {
    if end <= first then []
    else Pages(pageStep, items, step, first, end - 1) + ([pageStep(end - 1)] + Map(step, items(end - 1)))
  }

  /** `range(lo, hi)`. */
  function Range(lo: int, hi: int): (r: seq<int>)
    ensures |r| == if hi <= lo then 0 else hi - lo
    decreases hi - lo
  {
    if hi <= lo then [] else Range(lo, hi - 1) + [hi - 1]
  }

  /** `range(lo, hi)` counts up from `lo` in steps of one. */
  lemma {:induction false} RangeAt(lo: int, hi: int)
    ensures forall k :: 0 <= k < |Range(lo, hi)| ==> Range(lo, hi)[k] == lo + k
    decreases hi - lo
  {
    if lo < hi {
      RangeAt(lo, hi - 1);
    }
  }

  /** `Map` applies `f` to each item in place. */
  lemma {:induction false} MapAt<T, U>(f: T -> U, xs: seq<T>)
    ensures forall k :: 0 <= k < |xs| ==> Map(f, xs)[k] == f(xs[k])
  {
    if xs != [] {
      MapAt(f, xs[..|xs| - 1]);
    }
  }

  /** Reference: the books `keep` finds for each item, concatenated in item order. */
  function Flatten<T>(keep: T -> seq<Book>, items: seq<T>): seq<Book> {
    if items == [] then [] else Flatten(keep, items[..|items| - 1]) + keep(items[|items| - 1])
  }

  /** Reference: the books of the items of pages `first` up to, not including, `end`, page after page. */
  function PagesFlatten<T>(items: int -> seq<T>, keep: T -> seq<Book>, first: int, end: int): seq<Book>
    decreases end - first
  {
    if end <= first then [] else PagesFlatten(items, keep, first, end - 1) + Flatten(keep, items(end - 1))
  }

  lemma StepsSnoc<T>(step: T -> Step, items: seq<T>, j: nat)
    requires j < |items|
    ensures Map(step, items[..j + 1]) == Map(step, items[..j]) + [step(items[j])]
  {
    assert items[..j + 1][..j] == items[..j];
  }

  lemma {:induction false} StepsPrefix<T>(step: T -> Step, items: seq<T>, j: nat)
    requires j <= |items|
    ensures Map(step, items[..j]) <= Map(step, items)
    decreases |items| - j
  {
    if j == |items| {
      assert items[..j] == items;
    } else {
      StepsSnoc(step, items, j);
      StepsPrefix(step, items, j + 1);
      PrefixTrans(Map(step, items[..j]), Map(step, items[..j + 1]), Map(step, items));
    }
  }

  lemma {:induction false} PagesPrefix<T>(pageStep: int -> Step, items: int -> seq<T>, step: T -> Step, first: int, a: int, b: int)
    requires a <= b
    ensures Pages(pageStep, items, step, first, a) <= Pages(pageStep, items, step, first, b)
    decreases b - a
  {
    if a < b {
      PagesPrefix(pageStep, items, step, first, a, b - 1);
      if first < b {
        PrefixTrans(Pages(pageStep, items, step, first, a), Pages(pageStep, items, step, first, b - 1),
                    Pages(pageStep, items, step, first, b));
      }
    }
  }

  /** Handling one more item after `prefix` is one more step of the run. */
  lemma StepsNext<T>(step: T -> Step, items: seq<T>, prefix: seq<Step>, j: nat)
    requires j < |items|
    ensures Collect(prefix + Map(step, items[..j + 1])) == Then(Collect(prefix + Map(step, items[..j])), step(items[j]))
  {
    StepsSnoc(step, items, j);
    assert prefix + Map(step, items[..j + 1]) == (prefix + Map(step, items[..j])) + [step(items[j])];
    CollectSnoc(prefix + Map(step, items[..j]), step(items[j]));
  }

  lemma StepsNone<T>(step: T -> Step, items: seq<T>, prefix: seq<Step>)
    ensures Collect(prefix + Map(step, items[..0])) == Collect(prefix)
  {
    assert prefix + Map(step, items[..0]) == prefix;
  }

  lemma StepsAll<T>(step: T -> Step, items: seq<T>, prefix: seq<Step>)
    ensures Collect(prefix + Map(step, items[..|items|])) == Collect(prefix + Map(step, items))
  {
    assert items[..|items|] == items;
  }

  /** Once an exception escapes while handling the first `j` items, the later items change nothing. */
  lemma StepsStop<T>(step: T -> Step, items: seq<T>, prefix: seq<Step>, j: nat)
    requires j <= |items| && Collect(prefix + Map(step, items[..j])).fatal.Some?
    ensures Collect(prefix + Map(step, items)) == Collect(prefix + Map(step, items[..j]))
  {
    StepsPrefix(step, items, j);
    PrefixExtend(prefix, Map(step, items[..j]), Map(step, items));
    CollectFatalPrefix(prefix + Map(step, items[..j]), prefix + Map(step, items));
  }

  /** A page's own step followed by its items' steps, after earlier steps `done`. */
  lemma PageThen<T>(step: T -> Step, done: seq<Step>, ps: Step, items: seq<T>)
    ensures Collect(done + [ps]) == Then(Collect(done), ps)
    ensures Collect(done + ([ps] + Map(step, items))) == Collect((done + [ps]) + Map(step, items))
    ensures items == [] ==> Collect(done + ([ps] + Map(step, items))) == Then(Collect(done), ps)
  {
    CollectSnoc(done, ps);
    assert done + ([ps] + Map(step, items)) == (done + [ps]) + Map(step, items);
    if items == [] {
      assert (done + [ps]) + Map(step, items) == done + [ps];
    }
  }

  /** Once an exception escapes on the pages before `k`, the later pages change nothing. */
  lemma PagesStop<T>(pageStep: int -> Step, items: int -> seq<T>, step: T -> Step, first: int, k: int, end: int)
    requires k <= end && Collect(Pages(pageStep, items, step, first, k)).fatal.Some?
    ensures Collect(Pages(pageStep, items, step, first, end)) == Collect(Pages(pageStep, items, step, first, k))
  {
    PagesPrefix(pageStep, items, step, first, k, end);
    CollectFatalPrefix(Pages(pageStep, items, step, first, k), Pages(pageStep, items, step, first, end));
  }

  /** The books of a step that keeps none followed by further steps, after earlier steps. */
  lemma KeptAfter(prev: seq<Step>, ps: Step, rest: seq<Step>)
    requires !ps.outcome.Record?
    ensures Kept(prev + ([ps] + rest)) == Kept(prev) + Kept(rest)
  {
    KeptAppend(prev, [ps] + rest);
    KeptAppend([ps], rest);
    OneStep(ps);
  }

  /** Steps that keep what `keep` finds keep, all together, the flattened reference. */
  lemma {:induction false} StepsKeep<T>(step: T -> Step, keep: T -> seq<Book>, items: seq<T>)
    requires forall x :: KeptBy(step(x)) == keep(x)
    ensures Kept(Map(step, items)) == Flatten(keep, items)
  {
    if items != [] {
      var init := items[..|items| - 1];
      StepsKeep(step, keep, init);
      KeptSnoc(Map(step, init), step(items[|items| - 1]));
    }
  }

  /**
   * Pages whose own steps keep nothing, and whose items' steps keep what
   * `keep` finds, keep the page-after-page flattened reference.
   */
  lemma {:induction false} PagesKeep<T>(pageStep: int -> Step, items: int -> seq<T>, step: T -> Step, keep: T -> seq<Book>, first: int, end: int)
    requires forall p :: !pageStep(p).outcome.Record?
    requires forall x :: KeptBy(step(x)) == keep(x)
    ensures Kept(Pages(pageStep, items, step, first, end)) == PagesFlatten(items, keep, first, end)
    decreases end - first
  {
    if end > first {
      var prev := Pages(pageStep, items, step, first, end - 1);
      var ps := pageStep(end - 1);
      var rest := Map(step, items(end - 1));
      PagesKeep(pageStep, items, step, keep, first, end - 1);
      StepsKeep(step, keep, items(end - 1));
      KeptAfter(prev, ps, rest);
    }
  }

  lemma OneStep(s: Step)
    ensures Kept([s]) == KeptBy(s) && AllEvents([s]) == s.events && ConnectionSkips([s]) == ConnectionSkips([]) + (if s.outcome == Skipped(ConnectionError) then 1 else 0)
  {
    assert [s][..0] == [];
  }

  lemma EventsAfter(prev: seq<Step>, ps: Step, rest: seq<Step>)
    ensures AllEvents(prev + ([ps] + rest)) == AllEvents(prev) + (ps.events + AllEvents(rest))
  {
    AllEventsAppend(prev, [ps] + rest);
    AllEventsAppend([ps], rest);
    OneStep(ps);
  }

  lemma RequestsAfter(prev: seq<Step>, ps: Step, rest: seq<Step>, what: Resource)
    ensures Requests(AllEvents(prev + ([ps] + rest)), what)
            == Requests(AllEvents(prev), what) + (Requests(ps.events, what) + Requests(AllEvents(rest), what))
  {
    EventsAfter(prev, ps, rest);
    RequestsAppend(AllEvents(prev), ps.events + AllEvents(rest), what);
    RequestsAppend(ps.events, AllEvents(rest), what);
  }

  lemma SleepsAfter(prev: seq<Step>, ps: Step, rest: seq<Step>)
    ensures Sleeps(AllEvents(prev + ([ps] + rest))) == Sleeps(AllEvents(prev)) + Sleeps(ps.events) + Sleeps(AllEvents(rest))
    ensures ConnectionSkips(prev + ([ps] + rest)) == ConnectionSkips(prev) + ConnectionSkips([ps]) + ConnectionSkips(rest)
  {
    EventsAfter(prev, ps, rest);
    SleepsAppend(AllEvents(prev), ps.events + AllEvents(rest));
    SleepsAppend(ps.events, AllEvents(rest));
    ConnectionSkipsAppend(prev, [ps] + rest);
    ConnectionSkipsAppend([ps], rest);
  }

  /** Steps that each issue one request of kind `what` issue, all together, those requests in item order. */
  lemma {:induction false} StepsRequests<T>(step: T -> Step, items: seq<T>, what: Resource, req: T -> Request)
    requires forall x :: Requests(step(x).events, what) == [req(x)]
    ensures Requests(AllEvents(Map(step, items)), what) == Map(req, items)
  {
    if items != [] {
      var init := items[..|items| - 1];
      var last := step(items[|items| - 1]);
      StepsRequests(step, init, what, req);
      KeptSnoc(Map(step, init), last);
      RequestsAppend(AllEvents(Map(step, init)), last.events, what);
    }
  }

  lemma {:induction false} StepsNoRequests<T>(step: T -> Step, items: seq<T>, what: Resource)
    requires forall x :: Requests(step(x).events, what) == []
    ensures Requests(AllEvents(Map(step, items)), what) == []
  {
    if items != [] {
      var init := items[..|items| - 1];
      var last := step(items[|items| - 1]);
      StepsNoRequests(step, init, what);
      KeptSnoc(Map(step, init), last);
      RequestsAppend(AllEvents(Map(step, init)), last.events, what);
    }
  }

  /**
   * Pages whose own step issues one request of kind `what`, and whose items
   * issue none, issue one such request per page, in page order.
   */
  lemma {:induction false} PagesRequests<T>(pageStep: int -> Step, items: int -> seq<T>, step: T -> Step, first: int, end: int, what: Resource, req: int -> Request)
    requires forall p :: Requests(pageStep(p).events, what) == [req(p)]
    requires forall x :: Requests(step(x).events, what) == []
    ensures Requests(AllEvents(Pages(pageStep, items, step, first, end)), what) == Map(req, Range(first, end))
    decreases end - first
  {
    if end > first {
      var prev := Pages(pageStep, items, step, first, end - 1);
      var ps := pageStep(end - 1);
      var rest := Map(step, items(end - 1));
      assert Pages(pageStep, items, step, first, end) == prev + ([ps] + rest);
      PagesRequests(pageStep, items, step, first, end - 1, what, req);
      StepsNoRequests(step, items(end - 1), what);
      assert Requests(ps.events, what) == [req(end - 1)];
      RequestsAfter(prev, ps, rest, what);
      MapRangeSnoc(req, first, end);
    }
  }

  /** Mapping over `range(first, end)` is mapping over one page fewer, then the last page. */
  lemma MapRangeSnoc<U>(f: int -> U, first: int, end: int)
    requires first < end
    ensures Map(f, Range(first, end)) == Map(f, Range(first, end - 1)) + [f(end - 1)]
  {
    var r := Range(first, end);
    assert r[..|r| - 1] == Range(first, end - 1);
  }

  lemma SleepsAppend(a: seq<Event>, b: seq<Event>)
    ensures Sleeps(a + b) == Sleeps(a) + Sleeps(b)
  {
    assert multiset(a + b) == multiset(a) + multiset(b);
  }

  /** Steps that pause only after a `ConnectionError` pause, all together, once per such skip. */
  lemma {:induction false} StepsSleeps<T>(step: T -> Step, items: seq<T>)
    requires forall x :: PausesOnConnectionError(step(x))
    ensures Sleeps(AllEvents(Map(step, items))) == ConnectionSkips(Map(step, items))
  {
    if items != [] {
      var init := items[..|items| - 1];
      var last := step(items[|items| - 1]);
      StepsSleeps(step, init);
      KeptSnoc(Map(step, init), last);
      OneStep(last);
      SleepsAppend(AllEvents(Map(step, init)), last.events);
    }
  }

  lemma {:induction false} PagesSleeps<T>(pageStep: int -> Step, items: int -> seq<T>, step: T -> Step, first: int, end: int)
    requires forall p :: PausesOnConnectionError(pageStep(p))
    requires forall x :: PausesOnConnectionError(step(x))
    ensures Sleeps(AllEvents(Pages(pageStep, items, step, first, end))) == ConnectionSkips(Pages(pageStep, items, step, first, end))
    decreases end - first
  {
    if end > first {
      var prev := Pages(pageStep, items, step, first, end - 1);
      var ps := pageStep(end - 1);
      var rest := Map(step, items(end - 1));
      PagesSleeps(pageStep, items, step, first, end - 1);
      StepsSleeps(step, items(end - 1));
      SleepsAfter(prev, ps, rest);
    }
  }
}
