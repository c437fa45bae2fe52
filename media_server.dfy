/**
 * The paging loop of `MediaServer.browse`: Browse (BrowseDirectChildren) is
 * invoked page by page, at most `REQUEST_MAX` entries at a time, following
 * the paging rules of the Browse action of the UPnP ContentDirectory:1
 * service (section 2.7.4 of its service template).
 *
 * The network call is the parameter `invoke` (starting index, requested count
 * to response), the parse of a result is the parameter `children`
 * (`CdsObjectFactory.parseDirectChildren` with the server's UDN), and the
 * subscriber's disposal is the parameter `disposed`: `disposed(n)` says the
 * stream was disposed once `n` pages had been delivered.
 */
module MediaServer {
  import opened Wrappers
  import opened JavaInt
  import opened CdsTypes

  /** The largest number of entries one Browse invocation asks for. */
  const REQUEST_MAX: int := 10

  /**
   * `BrowseResponse(browse.invokeSync(...))`: NumberReturned, TotalMatches and
   * Result, or the exception `invokeSync` throws.
   */
  datatype Response = Response(numberReturned: Int32, totalMatches: Int32, result: Option<string>) | InvokeFailure

  /** `MediaServer.Result`: one delivered page. */
  datatype Page = Page(list: seq<CdsObject>, start: Int32, number: Int32, total: Int32, description: string)

  /** How the stream ends: `onComplete`, `onError`, or disposed, after which nothing more is delivered. */
  datatype Outcome = Completed | Failed | Disposed

  /** The pages a subscriber receives and how the stream ends. */
  datatype BrowseRun = BrowseRun(pages: seq<Page>, outcome: Outcome)

  type Invoker = (Int32, Int32) -> Response

  type ChildParser = Option<string> -> seq<CdsObject>

  /** The effective request limit: `requestedCount`, where 0 means no limit. */
  function RequestLimit(requestedCount: Int32): (r: Int32)
    ensures r != 0
    ensures requestedCount != 0 ==> r == requestedCount
  {
    if requestedCount == 0 then MAX_VALUE else requestedCount
  }

  /** `minOf(request - start, REQUEST_MAX)` in Kotlin `Int` arithmetic. */
  function RequestCount(request: Int32, start: Int32): (r: Int32)
    ensures r <= REQUEST_MAX
    ensures 0 <= start <= request ==> r == if request - start < REQUEST_MAX then request - start else REQUEST_MAX
  {
    var remaining := Wrap(request - start);
    if remaining < REQUEST_MAX then remaining else REQUEST_MAX
  }

  /** Never disposed: a subscriber that takes every page. */
  function Never(n: nat): bool {
    false
  }

  /**
   * The run of the loop from its head with `start` as the next starting index
   * and `emitted` already delivered. The next index is `start + number`
   * computed without wrap-around (see `NextStartAsWritten`); the loop goes on
   * only while it is below both `total` and `request`, and every page has a
   * positive `number`, so `request - start` decreases.
   */
  function BrowseFrom(invoke: Invoker, children: ChildParser, disposed: nat -> bool,
                      request: Int32, start: Int32, emitted: seq<Page>): (r: BrowseRun)
    ensures |r.pages| >= |emitted| && r.pages[..|emitted|] == emitted
    ensures r.outcome == Disposed <==> disposed(|r.pages|)
    decreases if start < request then request - start else 0
  {
    if disposed(|emitted|) then BrowseRun(emitted, Disposed)
    else match invoke(start, RequestCount(request, start))
      case InvokeFailure => BrowseRun(emitted, Failed)
      case Response(number, total, result) =>
        if number == 0 || total == 0 then BrowseRun(emitted, Completed)
        else
          var list := children(result);
          if |list| == 0 || number < 0 || total < 0 then BrowseRun(emitted, Failed)
          // `response.result!!` throws, and the exception becomes `onError`
          else if result.None? then BrowseRun(emitted, Failed)
          else
            var pages := emitted + [Page(list, start, number, total, result.value)];
            var next := start + number;
            if next >= total || next >= request then
              BrowseRun(pages, if disposed(|pages|) then Disposed else Completed)
            else
              BrowseFrom(invoke, children, disposed, request, next, pages)
  }

  /** `browse(objectId, startingIndex = startingIndex, requestedCount = requestedCount)` as its subscriber sees it. */
  function BrowseSpec(invoke: Invoker, children: ChildParser, disposed: nat -> bool,
                      startingIndex: Int32, requestedCount: Int32): (r: BrowseRun)
    ensures r.outcome == Disposed <==> disposed(|r.pages|)
    ensures disposed(0) ==> r == BrowseRun([], Disposed)
  {
    BrowseFrom(invoke, children, disposed, RequestLimit(requestedCount), startingIndex, [])
  }

  /** The body of the `Observable.create` block of `browse`. */
  method Browse(invoke: Invoker, children: ChildParser, disposed: nat -> bool, startingIndex: Int32, requestedCount: Int32)
    returns (pages: seq<Page>, outcome: Outcome)
    ensures BrowseRun(pages, outcome) == BrowseSpec(invoke, children, disposed, startingIndex, requestedCount)
  {
    var request := if requestedCount == 0 then MAX_VALUE else requestedCount;
    var start: Int32 := startingIndex;
    pages := [];
    while !disposed(|pages|)
      invariant BrowseFrom(invoke, children, disposed, request, start, pages) ==
                BrowseSpec(invoke, children, disposed, startingIndex, requestedCount)
      decreases if start < request then request - start else 0
    {
      var count := RequestCount(request, start);
      var response := invoke(start, count);
      if response.InvokeFailure? {
        return pages, Failed;
      }
      var number := response.numberReturned;
      var total := response.totalMatches;
      if number == 0 || total == 0 {
        return pages, Completed;
      }
      var result := children(response.result);
      if |result| == 0 || number < 0 || total < 0 {
        return pages, Failed;
      }
      if response.result.None? {
        return pages, Failed;
      }
      pages := pages + [Page(result, start, number, total, response.result.value)];
      var next := start + number;
      if next >= total || next >= request {
        break;
      }
      start := next;
    }
    outcome := if disposed(|pages|) then Disposed else Completed;
  }

  /** The pages of a run, from `start` on: each begins where the one before it ended, and none is empty. */
  predicate Chained(pages: seq<Page>, start: int) {
    pages == [] ||
    (pages[0].start == start && pages[0].number > 0 && pages[0].total > 0 && pages[0].list != [] &&
     (|pages| > 1 ==> start + pages[0].number < pages[0].total) &&
     Chained(pages[1..], start + pages[0].number))
  }

  lemma {:induction false} BrowseFromChained(invoke: Invoker, children: ChildParser, disposed: nat -> bool,
                                             request: Int32, start: Int32, emitted: seq<Page>)
    ensures var run := BrowseFrom(invoke, children, disposed, request, start, emitted);
      |run.pages| >= |emitted| && run.pages[..|emitted|] == emitted && Chained(run.pages[|emitted|..], start) &&
      |run.pages| - |emitted| <= (if start < request then request - start else 1)
    decreases if start < request then request - start else 0
  {
    var run := BrowseFrom(invoke, children, disposed, request, start, emitted);
    if !disposed(|emitted|) && invoke(start, RequestCount(request, start)).Response? {
      var response := invoke(start, RequestCount(request, start));
      var number := response.numberReturned;
      var total := response.totalMatches;
      var list := children(response.result);
      if number != 0 && total != 0 && |list| != 0 && number >= 0 && total >= 0 && response.result.Some? {
        var page := Page(list, start, number, total, response.result.value);
        var pages := emitted + [page];
        var next := start + number;
        if next >= total || next >= request {
          assert run.pages == pages;
          assert run.pages[|emitted|..] == [page];
          assert [page][1..] == [];
        } else {
          assert run == BrowseFrom(invoke, children, disposed, request, next, pages);
          BrowseFromChained(invoke, children, disposed, request, next, pages);
          assert run.pages[|emitted|] == run.pages[..|pages|][|emitted|] == page;
          assert run.pages[|emitted|..][1..] == run.pages[|pages|..];
          assert Chained(run.pages[|emitted|..][1..], next);
        }
      }
    }
  }

  /** Page `p` is the response to the request at its start: NumberReturned, TotalMatches and Result, with the objects parsed from that Result. */
  predicate Answers(invoke: Invoker, children: ChildParser, request: Int32, p: Page) {
    invoke(p.start, RequestCount(request, p.start)) == Response(p.number, p.total, Some(p.description)) &&
    p.list == children(Some(p.description))
  }

  /**
   * The rules of one loop head, with `emitted` delivered so far: a disposed
   * subscriber stops the loop; otherwise a failed invocation is an error, a
   * NumberReturned or TotalMatches of 0 completes, a negative count, an empty
   * parse or a missing Result is an error, and any other response is
   * delivered as the next page.
   */
  lemma BrowseHeadRules(invoke: Invoker, children: ChildParser, disposed: nat -> bool,
                        request: Int32, start: Int32, emitted: seq<Page>)
    ensures var response := invoke(start, RequestCount(request, start));
      var run := BrowseFrom(invoke, children, disposed, request, start, emitted);
      && (disposed(|emitted|) ==> run == BrowseRun(emitted, Disposed))
      && (!disposed(|emitted|) && response.InvokeFailure? ==> run == BrowseRun(emitted, Failed))
      && (!disposed(|emitted|) && response.Response? && (response.numberReturned == 0 || response.totalMatches == 0) ==>
            run == BrowseRun(emitted, Completed))
      && (!disposed(|emitted|) && response.Response? && response.numberReturned != 0 && response.totalMatches != 0 &&
          (children(response.result) == [] || response.numberReturned < 0 || response.totalMatches < 0 ||
           response.result.None?) ==>
            run == BrowseRun(emitted, Failed))
      && (!disposed(|emitted|) && response.Response? && response.numberReturned > 0 && response.totalMatches > 0 &&
          children(response.result) != [] && response.result.Some? ==>
            |run.pages| > |emitted| &&
            run.pages[|emitted|] == Page(children(response.result), start, response.numberReturned,
                                         response.totalMatches, response.result.value))
  {
  }

  /**
   * Page `i` of `run`, the run of the loop from some head, was requested at a
   * head where the subscriber had not disposed, and is the response to that
   * request. A page that reaches TotalMatches or the request limit is the last
   * one, and the run then completes unless disposed after it; any other page
   * is followed by another loop head at the index where it ended.
   */
  ghost predicate ResumesAt(invoke: Invoker, children: ChildParser, disposed: nat -> bool, request: Int32,
                            run: BrowseRun, i: nat)
    requires i < |run.pages|
  {
    var p := run.pages[i];
    var next := p.start + p.number;
    && !disposed(i) && Answers(invoke, children, request, p) && p.number > 0
    && (if next >= p.total || next >= request
        then |run.pages| == i + 1 && run.outcome == (if disposed(i + 1) then Disposed else Completed)
        else run == BrowseFrom(invoke, children, disposed, request, next, run.pages[..i + 1]))
  }

  /** The first page a run delivers after `emitted` is the response at the head it starts from. */
  lemma BrowseFromFirstPage(invoke: Invoker, children: ChildParser, disposed: nat -> bool,
                            request: Int32, start: Int32, emitted: seq<Page>)
    requires |emitted| < |BrowseFrom(invoke, children, disposed, request, start, emitted).pages|
    ensures var run := BrowseFrom(invoke, children, disposed, request, start, emitted);
      run.pages[|emitted|].start == start && ResumesAt(invoke, children, disposed, request, run, |emitted|)
  {
    var run := BrowseFrom(invoke, children, disposed, request, start, emitted);
    var response := invoke(start, RequestCount(request, start));
    assert !disposed(|emitted|) && response.Response?;
    var list := children(response.result);
    assert response.numberReturned != 0 && response.totalMatches != 0 && |list| != 0 &&
           response.numberReturned >= 0 && response.totalMatches >= 0 && response.result.Some?;
    var page := Page(list, start, response.numberReturned, response.totalMatches, response.result.value);
    var pages := emitted + [page];
    assert run.pages[..|emitted| + 1] == pages;
    assert run.pages[|emitted|] == page;
  }

  /** Every page a run delivers after `emitted` is the response at its own loop head (`ResumesAt`). */
  lemma {:induction false} BrowseFromResumes(invoke: Invoker, children: ChildParser, disposed: nat -> bool,
                                             request: Int32, start: Int32, emitted: seq<Page>, i: nat)
    requires |emitted| <= i < |BrowseFrom(invoke, children, disposed, request, start, emitted).pages|
    ensures ResumesAt(invoke, children, disposed, request, BrowseFrom(invoke, children, disposed, request, start, emitted), i)
    decreases if start < request then request - start else 0
  {
    var run := BrowseFrom(invoke, children, disposed, request, start, emitted);
    BrowseFromFirstPage(invoke, children, disposed, request, start, emitted);
    if i > |emitted| {
      var p := run.pages[|emitted|];
      var next := p.start + p.number;
      assert !(next >= p.total || next >= request);
      BrowseFromResumes(invoke, children, disposed, request, next, run.pages[..|emitted| + 1], i);
    }
  }

  /**
   * Every page `browse` delivers is the response to the request at its start,
   * made while the subscriber had not disposed; the loop stops after a page
   * only when it reaches TotalMatches or the request limit, and otherwise asks
   * again from where the page ended.
   */
  lemma BrowseResumes(invoke: Invoker, children: ChildParser, disposed: nat -> bool,
                      startingIndex: Int32, requestedCount: Int32, i: nat)
    requires i < |BrowseSpec(invoke, children, disposed, startingIndex, requestedCount).pages|
    ensures ResumesAt(invoke, children, disposed, RequestLimit(requestedCount),
                      BrowseSpec(invoke, children, disposed, startingIndex, requestedCount), i)
  {
    BrowseFromResumes(invoke, children, disposed, RequestLimit(requestedCount), startingIndex, [], i);
  }

  lemma {:induction false} ChainedSteps(pages: seq<Page>, start: int)
    requires Chained(pages, start)
    ensures pages != [] ==> pages[0].start == start
    ensures forall i :: 0 <= i < |pages| ==> pages[i].number > 0 && pages[i].total > 0 && pages[i].list != []
    ensures forall i :: 0 <= i < |pages| - 1 ==> pages[i + 1].start == pages[i].start + pages[i].number
    ensures forall i :: 0 <= i < |pages| - 1 ==> pages[i].start + pages[i].number < pages[i].total
  {
    if pages != [] {
      ChainedSteps(pages[1..], start + pages[0].number);
      assert forall i :: 1 <= i < |pages| ==> pages[i] == pages[1..][i - 1];
    }
  }

  /**
   * Every delivered page is non-empty, the first begins at `startingIndex`,
   * each later one begins where the one before it ended, so the starting
   * indexes strictly increase, and only the last page may reach TotalMatches.
   */
  lemma BrowsePagesChained(invoke: Invoker, children: ChildParser, disposed: nat -> bool,
                           startingIndex: Int32, requestedCount: Int32)
    ensures var pages := BrowseSpec(invoke, children, disposed, startingIndex, requestedCount).pages;
      && (pages != [] ==> pages[0].start == startingIndex)
      && (forall i :: 0 <= i < |pages| ==> pages[i].number > 0 && pages[i].total > 0 && pages[i].list != [])
      && (forall i :: 0 <= i < |pages| - 1 ==> pages[i + 1].start == pages[i].start + pages[i].number)
      && (forall i :: 0 <= i < |pages| - 1 ==> pages[i].start + pages[i].number < pages[i].total)
  {
    var pages := BrowseSpec(invoke, children, disposed, startingIndex, requestedCount).pages;
    BrowseFromChained(invoke, children, disposed, RequestLimit(requestedCount), startingIndex, []);
    assert pages[0..] == pages;
    ChainedSteps(pages, startingIndex);
  }

  /** Starting indexes strictly increase, page after page. */
  lemma BrowseStartsIncrease(invoke: Invoker, children: ChildParser, disposed: nat -> bool,
                             startingIndex: Int32, requestedCount: Int32, i: nat, j: nat)
    requires var pages := BrowseSpec(invoke, children, disposed, startingIndex, requestedCount).pages;
      i < j < |pages|
    ensures var pages := BrowseSpec(invoke, children, disposed, startingIndex, requestedCount).pages;
      pages[i].start < pages[j].start
    decreases j - i
  {
    BrowsePagesChained(invoke, children, disposed, startingIndex, requestedCount);
    if i + 1 < j {
      BrowseStartsIncrease(invoke, children, disposed, startingIndex, requestedCount, i + 1, j);
    }
  }

  /** The loop ends: no run delivers more pages than the request limit leaves room for (one, when none). */
  lemma BrowseBounded(invoke: Invoker, children: ChildParser, disposed: nat -> bool,
                      startingIndex: Int32, requestedCount: Int32)
    ensures var request := RequestLimit(requestedCount);
      |BrowseSpec(invoke, children, disposed, startingIndex, requestedCount).pages| <=
      (if startingIndex < request then request - startingIndex else 1)
  {
    BrowseFromChained(invoke, children, disposed, RequestLimit(requestedCount), startingIndex, []);
  }

  /**
   * The first response decides an empty run: NumberReturned or TotalMatches 0
   * completes without a page; an empty parse or a negative count is an error.
   */
  lemma FirstResponseRules(invoke: Invoker, children: ChildParser, disposed: nat -> bool,
                           startingIndex: Int32, requestedCount: Int32)
    requires !disposed(0)
    ensures var response := invoke(startingIndex, RequestCount(RequestLimit(requestedCount), startingIndex));
      var run := BrowseSpec(invoke, children, disposed, startingIndex, requestedCount);
      && (response.InvokeFailure? ==> run == BrowseRun([], Failed))
      && (response.Response? && (response.numberReturned == 0 || response.totalMatches == 0) ==>
            run == BrowseRun([], Completed))
      && (response.Response? && response.numberReturned != 0 && response.totalMatches != 0 &&
          (children(response.result) == [] || response.numberReturned < 0 || response.totalMatches < 0) ==>
            run == BrowseRun([], Failed))
  {
  }

  /**
   * A subscriber that disposes the stream during the delivery of page `k`
   * receives exactly the first `k` pages of the undisposed run: disposal is
   * seen at the next loop head and nothing after it is requested.
   */
  lemma {:induction false} DisposedAfter(invoke: Invoker, children: ChildParser, k: nat,
                                         request: Int32, start: Int32, emitted: seq<Page>)
    requires |emitted| <= k
    ensures var whole := BrowseFrom(invoke, children, Never, request, start, emitted);
      var cut := BrowseFrom(invoke, children, (n: nat) => n >= k, request, start, emitted);
      cut.pages == if |whole.pages| <= k then whole.pages else whole.pages[..k]
    decreases if start < request then request - start else 0
  {
    var d := (n: nat) => n >= k;
    if |emitted| < k && invoke(start, RequestCount(request, start)).Response? {
      var response := invoke(start, RequestCount(request, start));
      var number := response.numberReturned;
      var total := response.totalMatches;
      var list := children(response.result);
      if number != 0 && total != 0 && |list| != 0 && number >= 0 && total >= 0 && response.result.Some? {
        var pages := emitted + [Page(list, start, number, total, response.result.value)];
        var next := start + number;
        if !(next >= total || next >= request) {
          assert BrowseFrom(invoke, children, Never, request, start, emitted) == BrowseFrom(invoke, children, Never, request, next, pages);
          assert BrowseFrom(invoke, children, d, request, start, emitted) == BrowseFrom(invoke, children, d, request, next, pages);
          DisposedAfter(invoke, children, k, request, next, pages);
        }
      }
    } else if |emitted| == k {
      BrowseFromChained(invoke, children, Never, request, start, emitted);
    }
  }

  /** The next starting index as the source computes it: `start += number` in 32-bit `Int`. */
  function NextStartAsWritten(start: Int32, number: Int32): Int32 {
    Wrap(start + number)
  }

  /** Whether the loop goes on after a page, as written: neither bound is reached by the wrapped index. */
  predicate ContinuesAsWritten(start: Int32, number: Int32, total: Int32, request: Int32) {
    var next := NextStartAsWritten(start, number);
    !(next >= total || next >= request)
  }

  /**
   * A server that reports more entries than were requested (here NumberReturned
   * 2147483647 at index 10, with TotalMatches 2147483647 and no request limit)
   * makes the written index wrap to a negative value: the loop goes on and asks
   * again from an index lower than the one it has just read. Without the
   * wrap-around the index passes the limit and the loop ends.
   */
  lemma StartWrapsAsWritten()
    ensures NextStartAsWritten(10, MAX_VALUE) < 10
    ensures ContinuesAsWritten(10, MAX_VALUE, MAX_VALUE, MAX_VALUE)
    ensures 10 + MAX_VALUE >= RequestLimit(0)
  {
  }
}
