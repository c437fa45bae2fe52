/**
 * The Kotlin `MainWindow`: the same entry naming, and a `dumpAllDir` that
 * subscribes to `MediaServer.browse(id)` on the trampoline scheduler, so the
 * pages arrive one after another before the next ID is taken. Each page
 * delivered to `onNext` queues its containers, sets the progress text and is
 * written as one entry, named by the ID alone only when it starts at 0 and
 * holds every match. An exception thrown in `onNext` disposes the stream and
 * goes to the empty `onError`, so the walk goes on with the next ID.
 *
 * The server's Browse action for each object ID is the parameter `catalog`,
 * the parse of a result the parameter `children`, the cancel flag the
 * parameter `cancel`, read at each loop head with the number of IDs taken.
 */
module MainWindowKt {
  import opened Wrappers
  import opened JavaInt
  import opened CdsTypes
  import opened ArchivePaths
  import opened TextParseUtils
  import opened ExtractorWalk
  import MS = MediaServer
  import Java = MainWindowJava

  /** `browse.invokeSync` of the server, for each object ID. */
  type Catalog = string -> MS.Invoker

  /** The pages `server.browse(id)` produces for a subscriber that takes them all. */
  function PagesOf(catalog: Catalog, children: MS.ChildParser, id: string): seq<MS.Page> {
    MS.BrowseSpec(catalog(id), children, MS.Never, 0, 0).pages
  }

  /** The suffix of a page's entry: none when it starts at 0 and holds every match, else `"(start-end)"`, then `.xml`. */
  function PageSuffix(page: MS.Page): string {
    if page.start == 0 && page.number == page.total then ".xml"
    else RangeSuffix(page.start, Wrap(page.start + page.number - 1)) + ".xml"
  }

  /** A page is named by the ID alone exactly when it starts at 0 and holds every match; every name ends in `.xml`. */
  lemma PageSuffixNaming(page: MS.Page)
    ensures var s := PageSuffix(page);
      && (s == ".xml" <==> page.start == 0 && page.number == page.total)
      && |s| >= 4 && s[|s| - 4..] == ".xml"
  {
    if !(page.start == 0 && page.number == page.total) {
      var s := PageSuffix(page);
      assert s[0] == '(';
    }
  }

  /**
   * The `onNext` block for one page: the containers queued, the progress text
   * set, the page's XML written under `id`; `Some(PathsExhausted)` when
   * `makePath` threw, which disposes the stream.
   */
  function HandlePage(w: Walk, base: string, id: string, page: MS.Page): (pass: Pass)
    ensures pass.walk.popped == w.popped && pass.walk.queue == w.queue + ContainerIds(page.list)
    ensures pass.walk.found == w.found + ContainerIds(page.list)
    ensures pass.stop == None || pass.stop == Some(PathsExhausted)
    ensures |pass.walk.archive.entries| == |w.archive.entries| + (if pass.stop == None then 1 else 0)
  {
    var w1 := Discover(w, page.list);
    match WriteEntry(w1.archive, PathBody(base, id), PageSuffix(page), page.description)
    case None => Pass(w1, Some(PathsExhausted))
    case Some(a) => Pass(w1.(archive := a), None)
  }

  /** The IDs of the containers on `pages`, page after page, each page's in order. */
  function PageContainers(pages: seq<MS.Page>): seq<string> {
    if pages == [] then [] else ContainerIds(pages[0].list) + PageContainers(pages[1..])
  }

  /** The `onNext` lambda of the subscription to `id`'s browse. */
  function OnPage(base: string, id: string): (Walk, MS.Page) -> Pass {
    (w: Walk, page: MS.Page) => HandlePage(w, base, id, page)
  }

  /** The pages from the `k`-th on delivered to `onNext`, until one of them throws and so disposes the stream. */
  function Deliver(onNext: (Walk, MS.Page) -> Pass, w: Walk, pages: seq<MS.Page>, k: nat): Walk
    requires k <= |pages|
    decreases |pages| - k
  {
    if k == |pages| then w
    else if onNext(w, pages[k]).stop.Some? then onNext(w, pages[k]).walk
    else Deliver(onNext, onNext(w, pages[k]).walk, pages, k + 1)
  }

  /** The index of the page whose `onNext` threw, from the `k`-th on; the number of pages when none did. */
  ghost function StopAt(onNext: (Walk, MS.Page) -> Pass, w: Walk, pages: seq<MS.Page>, k: nat): nat
    requires k <= |pages|
    decreases |pages| - k
  {
    if k == |pages| then k
    else if onNext(w, pages[k]).stop.Some? then k
    else StopAt(onNext, onNext(w, pages[k]).walk, pages, k + 1)
  }

  /** How many pages reach `onNext`: all of them, or up to and including the one that threw. */
  ghost function Delivered(onNext: (Walk, MS.Page) -> Pass, w: Walk, pages: seq<MS.Page>): nat {
    var j := StopAt(onNext, w, pages, 0);
    if j < |pages| then j + 1 else j
  }

  /** One pass of the `while` body: the ID taken, then every page of its browse handled. */
  function KtStep(w: Walk, base: string, catalog: Catalog, children: MS.ChildParser): (v: Walk)
    requires w.queue != []
    ensures v.popped == w.popped + [w.queue[0]]
  {
    var id := w.queue[0];
    var w1 := Pop(w);
    DeliverKeeps(OnPage(base, id), w1, PagesOf(catalog, children, id), 0, (v: Walk, j: nat) => v.popped == w1.popped);
    Deliver(OnPage(base, id), w1, PagesOf(catalog, children, id), 0)
  }

  /** The `while` body as a pass over any walk: it never ends the walk, since `onError` is empty. */
  function KotlinPass(base: string, catalog: Catalog, children: MS.ChildParser): Walk -> Pass {
    (w: Walk) => Pass(if w.queue == [] then w else KtStep(w, base, catalog, children), None)
  }

  /** The `while` loop of the Kotlin `dumpAllDir` from state `w`, browsing at most `fuel` more IDs. */
  function Run(base: string, catalog: Catalog, children: MS.ChildParser, cancel: nat -> bool, w: Walk, fuel: nat): Finished {
    Loop(KotlinPass(base, catalog, children), cancel, w, fuel)
  }

  /**
   * A page leaves the IDs taken as they were, appends its containers to the
   * queue, keeps the bookkeeping, and sets the progress text to the number of
   * IDs taken over `count`.
   */
  lemma HandlePageKeepsFifo(w: Walk, base: string, id: string, page: MS.Page)
    requires Fifo(w)
    ensures var v := HandlePage(w, base, id, page).walk;
      Fifo(v) && v.popped == w.popped && v.queue == w.queue + ContainerIds(page.list) &&
      v.progress == w.progress + [ProgressText(|w.popped|, v.count)]
  {
    DiscoverKeepsFifo(w, page.list);
  }

  /** The entries of `a'` after those of `a` hold the XML of the pages from the `k`-th on, in order, all named under `body`. */
  ghost predicate PageWrites(a: Archive, a': Archive, body: string, pages: seq<MS.Page>, k: nat) {
    |a.entries| <= |a'.entries| <= |a.entries| + |pages| - k &&
    forall i :: |a.entries| <= i < |a'.entries| ==>
      body <= a'.entries[i].path && a'.entries[i].data == pages[k + i - |a.entries|].description
  }

  /** What holds of the archive after the pages from the `k`-th on up to the `j`-th were written. */
  ghost predicate WrittenUpTo(a: Archive, v: Archive, body: string, pages: seq<MS.Page>, k: nat, j: nat) {
    Consistent(v) && Extends(a, v) && PageWrites(a, v, body, pages, k) && |v.entries| == |a.entries| + j - k
  }

  /** Writing the `j`-th page adds one entry, under a fresh name, holding its XML. */
  lemma WritePageKeeps(a: Archive, v: Archive, body: string, pages: seq<MS.Page>, k: nat, j: nat)
    requires k <= j < |pages| && WrittenUpTo(a, v, body, pages, k, j)
    ensures var e := WriteEntry(v, body, PageSuffix(pages[j]), pages[j].description);
      e.Some? ==> WrittenUpTo(a, e.value, body, pages, k, j + 1)
  {
    var e := WriteEntry(v, body, PageSuffix(pages[j]), pages[j].description);
    WriteEntryFresh(v, body, PageSuffix(pages[j]), pages[j].description);
    UniquePathPrefix(v.reserved, body, PageSuffix(pages[j]));
    if e.Some? {
      ExtendsTransitive(a, v, e.value);
      forall i | |a.entries| <= i < |e.value.entries|
        ensures body <= e.value.entries[i].path && e.value.entries[i].data == pages[k + i - |a.entries|].description
      {
        if i < |v.entries| {
          assert e.value.entries[i] == e.value.entries[..|v.entries|][i];
        }
      }
    }
  }

  /** What every `onNext` keeps holds once the subscription ends, at the page that threw (or past the last). */
  lemma {:induction false} DeliverKeeps(onNext: (Walk, MS.Page) -> Pass, w: Walk, pages: seq<MS.Page>, k: nat,
                                        inv: (Walk, nat) -> bool)
    requires k <= |pages| && inv(w, k)
    requires forall v: Walk, j: nat {:trigger onNext(v, pages[j])} ::
      k <= j < |pages| && inv(v, j) ==>
      inv(onNext(v, pages[j]).walk, if onNext(v, pages[j]).stop.None? then j + 1 else j)
    ensures var j := StopAt(onNext, w, pages, k);
      k <= j <= |pages| && inv(Deliver(onNext, w, pages, k), j)
    decreases |pages| - k
  {
    if k < |pages| && onNext(w, pages[k]).stop.None? {
      DeliverKeeps(onNext, onNext(w, pages[k]).walk, pages, k + 1, inv);
    }
  }

  /** The subscription keeps the bookkeeping and takes no ID. */
  lemma SubscriptionKeepsFifo(w: Walk, base: string, id: string, pages: seq<MS.Page>)
    requires Fifo(w)
    ensures var v := Deliver(OnPage(base, id), w, pages, 0); Fifo(v) && v.popped == w.popped
  {
    var onNext := OnPage(base, id);
    var inv := (v: Walk, j: nat) => Fifo(v) && v.popped == w.popped;
    forall v: Walk, j: nat | j < |pages| && inv(v, j)
      ensures inv(onNext(v, pages[j]).walk, if onNext(v, pages[j]).stop.None? then j + 1 else j)
    {
      HandlePageKeepsFifo(v, base, id, pages[j]);
    }
    DeliverKeeps(onNext, w, pages, 0, inv);
  }

  /**
   * The subscription writes one entry per page before the one that threw (every
   * page when none did), in order, each holding the page's XML under a fresh
   * name in `id`'s directory.
   */
  lemma SubscriptionWrites(w: Walk, base: string, id: string, pages: seq<MS.Page>)
    requires Consistent(w.archive)
    ensures var a, j := Deliver(OnPage(base, id), w, pages, 0).archive, StopAt(OnPage(base, id), w, pages, 0);
      && j <= |pages| && Consistent(a) && Extends(w.archive, a)
      && |a.entries| == |w.archive.entries| + j
      && PageWrites(w.archive, a, PathBody(base, id), pages, 0)
  {
    var onNext := OnPage(base, id);
    var body := PathBody(base, id);
    var inv := (v: Walk, j: nat) => WrittenUpTo(w.archive, v.archive, body, pages, 0, j);
    forall v: Walk, j: nat | j < |pages| && inv(v, j)
      ensures inv(onNext(v, pages[j]).walk, if onNext(v, pages[j]).stop.None? then j + 1 else j)
    {
      var v1 := Discover(v, pages[j].list);
      assert v1.archive == v.archive;
      WritePageKeeps(w.archive, v.archive, body, pages, 0, j);
    }
    assert w.archive.entries[..|w.archive.entries|] == w.archive.entries;
    DeliverKeeps(onNext, w, pages, 0, inv);
  }

  /**
   * The subscriber receives exactly the pages it handles: a stream disposed in
   * the `onNext` of the page that threw delivers the first `Delivered` pages of
   * the run that nobody disposes, and nothing after them.
   */
  lemma PagesDelivered(w: Walk, base: string, catalog: Catalog, children: MS.ChildParser, id: string)
    ensures var pages := PagesOf(catalog, children, id);
      var d := Delivered(OnPage(base, id), w, pages);
      d <= |pages| && MS.BrowseSpec(catalog(id), children, (n: nat) => n >= d, 0, 0).pages == pages[..d]
  {
    var pages := PagesOf(catalog, children, id);
    DeliverKeeps(OnPage(base, id), w, pages, 0, (v: Walk, j: nat) => true);
    var d := Delivered(OnPage(base, id), w, pages);
    MS.DisposedAfter(catalog(id), children, d, MS.RequestLimit(0), 0, []);
    assert pages[..|pages|] == pages;
  }

  /**
   * When every `onNext` appends its page's containers to the queue and to
   * `found`, the subscription appends the containers on the pages that reach
   * `onNext`, in order: every page from the `k`-th on up to and including the
   * one whose `onNext` threw.
   */
  lemma {:induction false} DeliverFinds(onNext: (Walk, MS.Page) -> Pass, w: Walk, pages: seq<MS.Page>, k: nat)
    requires k <= |pages|
    requires forall v: Walk, j: nat {:trigger onNext(v, pages[j])} :: k <= j < |pages| ==>
      onNext(v, pages[j]).walk.queue == v.queue + ContainerIds(pages[j].list) &&
      onNext(v, pages[j]).walk.found == v.found + ContainerIds(pages[j].list)
    ensures var v := Deliver(onNext, w, pages, k);
      var j := StopAt(onNext, w, pages, k);
      var d := if j < |pages| then j + 1 else j;
      k <= d <= |pages| &&
      v.queue == w.queue + PageContainers(pages[k..d]) && v.found == w.found + PageContainers(pages[k..d])
    decreases |pages| - k
  {
    if k == |pages| {
      assert pages[k..k] == [];
      assert w.queue + [] == w.queue && w.found + [] == w.found;
    } else {
      var page := pages[k];
      var pass := onNext(w, page);
      var found := ContainerIds(page.list);
      if pass.stop.Some? {
        assert pages[k..k + 1] == [page];
        assert PageContainers(pages[k..k + 1]) == found + [] == found;
      } else {
        DeliverFinds(onNext, pass.walk, pages, k + 1);
        var j := StopAt(onNext, pass.walk, pages, k + 1);
        var d := if j < |pages| then j + 1 else j;
        var rest := PageContainers(pages[k + 1..d]);
        assert pages[k..d][0] == page && pages[k..d][1..] == pages[k + 1..d];
        assert PageContainers(pages[k..d]) == found + rest;
        ConcatAssociative(w.queue, found, rest);
        ConcatAssociative(w.found, found, rest);
      }
    }
  }

  /** The subscription appends the containers on the pages that reach `onNext`, to the queue and to `found`. */
  lemma SubscriptionFinds(w: Walk, base: string, id: string, pages: seq<MS.Page>)
    ensures var v := Deliver(OnPage(base, id), w, pages, 0);
      var d := Delivered(OnPage(base, id), w, pages);
      d <= |pages| && v.queue == w.queue + PageContainers(pages[..d]) && v.found == w.found + PageContainers(pages[..d])
  {
    var onNext := OnPage(base, id);
    forall v: Walk, j: nat | j < |pages|
      ensures onNext(v, pages[j]).walk.queue == v.queue + ContainerIds(pages[j].list) &&
              onNext(v, pages[j]).walk.found == v.found + ContainerIds(pages[j].list)
    {
      assert onNext(v, pages[j]) == HandlePage(v, base, id, pages[j]);
    }
    DeliverFinds(onNext, w, pages, 0);
    var d := Delivered(onNext, w, pages);
    assert pages[0..d] == pages[..d];
  }

  /** The containers a pass appends: those on the pages of `id` that reach `onNext`, from walk `w`. */
  ghost function DeliveredContainers(w: Walk, base: string, catalog: Catalog, children: MS.ChildParser, id: string): seq<string> {
    var pages := PagesOf(catalog, children, id);
    var d := Delivered(OnPage(base, id), w, pages);
    if d <= |pages| then PageContainers(pages[..d]) else []
  }

  /** A pass takes the queue's first ID and keeps the bookkeeping. */
  lemma KtStepKeepsFifo(w: Walk, base: string, catalog: Catalog, children: MS.ChildParser)
    requires w.queue != [] && Fifo(w)
    ensures var v := KtStep(w, base, catalog, children);
      Fifo(v) && v.popped == w.popped + [w.queue[0]]
  {
    var id := w.queue[0];
    PopKeepsFifo(w);
    SubscriptionKeepsFifo(Pop(w), base, id, PagesOf(catalog, children, id));
  }

  /**
   * A pass appends to the back of the queue, and to `found`, the containers
   * on the pages of the taken ID's browse that reach `onNext` (all of them, or
   * up to the one whose `makePath` threw), page after page.
   */
  lemma KtStepFinds(w: Walk, base: string, catalog: Catalog, children: MS.ChildParser)
    requires w.queue != []
    ensures var v := KtStep(w, base, catalog, children);
      var found := DeliveredContainers(Pop(w), base, catalog, children, w.queue[0]);
      v.queue == w.queue[1..] + found && v.found == w.found + found
  {
    var id := w.queue[0];
    var pages := PagesOf(catalog, children, id);
    SubscriptionFinds(Pop(w), base, id, pages);
    assert KtStep(w, base, catalog, children) == Deliver(OnPage(base, id), Pop(w), pages, 0);
  }

  /** A pass writes fresh, distinct names, all under `base`. */
  lemma KtStepKeepsArchive(w: Walk, base: string, catalog: Catalog, children: MS.ChildParser)
    requires w.queue != [] && Consistent(w.archive)
    ensures var a := KtStep(w, base, catalog, children).archive;
      Consistent(a) && GrowsUnder(w.archive, a, base)
  {
    var id := w.queue[0];
    SubscriptionWrites(Pop(w), base, id, PagesOf(catalog, children, id));
    var a := KtStep(w, base, catalog, children).archive;
    assert base + "/" <= base + "/" + ToFileNameString(id);
    forall i | |w.archive.entries| <= i < |a.entries| ensures Under(base, a.entries[i].path) {
      assert base + "/" <= PathBody(base, id) <= a.entries[i].path;
    }
  }

  /** The loop keeps the bookkeeping: the IDs browsed are, in order, the root and then the containers found. */
  lemma RunKeepsFifo(base: string, catalog: Catalog, children: MS.ChildParser, cancel: nat -> bool, w: Walk, fuel: nat)
    requires Fifo(w)
    ensures Fifo(Run(base, catalog, children, cancel, w, fuel).walk)
  {
    var pass := KotlinPass(base, catalog, children);
    forall v: Walk | Fifo(v) && v.queue != [] ensures Fifo(pass(v).walk) {
      KtStepKeepsFifo(v, base, catalog, children);
    }
    LoopKeeps(pass, cancel, v => Fifo(v), w, fuel);
  }

  /** The loop takes IDs from the front of the queue only, at most `fuel` of them. */
  lemma RunTakes(base: string, catalog: Catalog, children: MS.ChildParser, cancel: nat -> bool, w: Walk, fuel: nat)
    ensures var v := Run(base, catalog, children, cancel, w, fuel).walk;
      w.popped <= v.popped && |v.popped| <= |w.popped| + fuel
  {
    var pass := KotlinPass(base, catalog, children);
    forall v: Walk | v.queue != [] ensures pass(v).walk.popped == v.popped + [v.queue[0]] {
      assert pass(v).walk == KtStep(v, base, catalog, children);
    }
    LoopTakes(pass, cancel, w, fuel);
  }

  /** The loop never reuses a name and writes only under `base`. */
  lemma RunKeepsArchive(base: string, catalog: Catalog, children: MS.ChildParser, cancel: nat -> bool, w: Walk, fuel: nat)
    requires Consistent(w.archive)
    ensures var a := Run(base, catalog, children, cancel, w, fuel).walk.archive;
      Consistent(a) && GrowsUnder(w.archive, a, base)
  {
    var pass := KotlinPass(base, catalog, children);
    var inv := (v: Walk) => Consistent(v.archive) && GrowsUnder(w.archive, v.archive, base);
    forall v: Walk | inv(v) && v.queue != [] ensures inv(pass(v).walk) {
      KtStepKeepsArchive(v, base, catalog, children);
      GrowsUnderTransitive(w.archive, v.archive, pass(v).walk.archive, base);
    }
    assert w.archive.entries[..|w.archive.entries|] == w.archive.entries;
    LoopKeeps(pass, cancel, inv, w, fuel);
  }

  /**
   * Why the loop stopped: never on an error, since a failed browse or a
   * `makePath` that threw ends only the current subscription; `Completed` with
   * the queue empty, `Cancelled` with the flag set and IDs left, `StepLimit`
   * after `fuel` IDs.
   */
  lemma RunEnds(base: string, catalog: Catalog, children: MS.ChildParser, cancel: nat -> bool, w: Walk, fuel: nat)
    ensures var r := Run(base, catalog, children, cancel, w, fuel);
      && !IsError(r.end)
      && (r.end == Completed ==> r.walk.queue == [])
      && (r.end == Cancelled ==> r.walk.queue != [] && cancel(|r.walk.popped|))
      && (r.end == StepLimit ==> |r.walk.popped| == |w.popped| + fuel)
  {
    var pass := KotlinPass(base, catalog, children);
    forall v: Walk | v.queue != [] ensures |pass(v).walk.popped| == |v.popped| + 1 {
      assert pass(v).walk == KtStep(v, base, catalog, children);
    }
    LoopEnds(pass, cancel, w, fuel);
    LoopStepLimit(pass, cancel, w, fuel);
    LoopStopsAfter(pass, cancel, BrowseFailed, v => false, w, fuel);
    LoopStopsAfter(pass, cancel, PathsExhausted, v => false, w, fuel);
  }

  /** Proof helper: one more pass of the loop, which takes one ID and goes on from `KtStep`'s walk. */
  lemma RunUnfold(base: string, catalog: Catalog, children: MS.ChildParser, cancel: nat -> bool, w: Walk, fuel: nat)
    requires w.queue != [] && !cancel(|w.popped|) && fuel > 0
    ensures var next := KtStep(w, base, catalog, children);
      |next.popped| == |w.popped| + 1 &&
      Run(base, catalog, children, cancel, w, fuel) == Run(base, catalog, children, cancel, next, fuel - 1)
  {
    assert KotlinPass(base, catalog, children)(w).walk == KtStep(w, base, catalog, children);
  }

  /**
   * An entry named by the ID alone is the only one of its ID: a page that
   * starts at 0 and holds every match is the first and last page of its browse.
   */
  lemma WholePageIsOnlyPage(catalog: Catalog, children: MS.ChildParser, id: string, j: nat)
    requires var pages := PagesOf(catalog, children, id);
      j < |pages| && PageSuffix(pages[j]) == ".xml"
    ensures |PagesOf(catalog, children, id)| == 1 && j == 0
  {
    var pages := PagesOf(catalog, children, id);
    MS.BrowsePagesChained(catalog(id), children, MS.Never, 0, 0);
    if j > 0 {
      MS.BrowseStartsIncrease(catalog(id), children, MS.Never, 0, 0, 0, j);
    }
  }

  /** The Java loop's description of a page: its starting index, its NumberReturned and its XML. */
  function AsDescriptions(pages: seq<MS.Page>): (ds: seq<Description>)
    ensures |ds| == |pages|
    ensures forall i :: 0 <= i < |pages| ==>
      ds[i] == Description(pages[i].start, pages[i].number, pages[i].description)
  {
    seq(|pages|, i requires 0 <= i < |pages| => Description(pages[i].start, pages[i].number, pages[i].description))
  }

  /**
   * Both versions name a page alike when the browse has several pages, or one
   * page that holds every match: by the ID alone exactly when it is the only
   * page, else by its range.
   */
  lemma NamingAgreesWithJava(catalog: Catalog, children: MS.ChildParser, id: string, j: nat)
    requires var pages := PagesOf(catalog, children, id);
      j < |pages| && (|pages| > 1 || (pages[0].start == 0 && pages[0].number == pages[0].total))
    ensures var pages := PagesOf(catalog, children, id);
      PageSuffix(pages[j]) == Java.DescriptionSuffix(AsDescriptions(pages), j)
  {
    var pages := PagesOf(catalog, children, id);
    if pages[j].start == 0 && pages[j].number == pages[j].total {
      WholePageIsOnlyPage(catalog, children, id, j);
    }
    SuffixesAgree(pages, j);
  }

  /** A page is named alike by both versions when it holds every match exactly when it is the only page. */
  lemma SuffixesAgree(pages: seq<MS.Page>, j: nat)
    requires j < |pages|
    requires pages[j].start == 0 && pages[j].number == pages[j].total <==> |pages| == 1
    ensures PageSuffix(pages[j]) == Java.DescriptionSuffix(AsDescriptions(pages), j)
  {
    var ds := AsDescriptions(pages);
    assert ds[j] == Description(pages[j].start, pages[j].number, pages[j].description);
  }

  /**
   * The versions disagree on a lone page that does not hold every match (the
   * server returned 5 of 7 entries and then none): Java names it by the ID
   * alone, Kotlin by its range.
   */
  lemma NamingDiffersOnShortListing(list: seq<CdsObject>, xml: string)
    ensures Java.DescriptionSuffix(AsDescriptions([MS.Page(list, 0, 5, 7, xml)]), 0) == ".xml"
    ensures PageSuffix(MS.Page(list, 0, 5, 7, xml)) == "(0-4).xml"
  {
    assert Decimal(0) == "0" && Decimal(4) == "4";
  }

  class MainWindow {
    /** `zipEntrySet`: the entry names used so far. */
    var zipEntrySet: set<string>
    /** The zip stream: the entries written, in order. */
    var zip: seq<ZipEntry>
    /** The texts set on the status field, in order. */
    var progress: seq<string>

    constructor ()
      ensures zipEntrySet == {} && zip == [] && progress == []
    {
      zipEntrySet := {};
      zip := [];
      progress := [];
    }

    /** `zipEntrySet.add(path)`: `true` when the name was not there yet. */
    method AddEntryName(path: string) returns (added: bool)
      modifies this
      ensures added <==> path !in old(zipEntrySet)
      ensures zipEntrySet == old(zipEntrySet) + {path}
      ensures zip == old(zip) && progress == old(progress)
    {
      added := path !in zipEntrySet;
      zipEntrySet := zipEntrySet + {path};
    }

    /** `makeUniquePath(body, suffix)`; `None` stands for the `IOException`. */
    method MakeUniquePath(body: string, suffix: string) returns (path: Option<string>)
      modifies this
      ensures path == UniquePath(old(zipEntrySet), body, suffix)
      ensures zipEntrySet == if path.Some? then old(zipEntrySet) + {path.value} else old(zipEntrySet)
      ensures zip == old(zip) && progress == old(progress)
    {
      var defaultPath := body + suffix;
      var added := AddEntryName(defaultPath);
      if added {
        return Some(defaultPath);
      }
      assert zipEntrySet == old(zipEntrySet);
      for i := 0 to MAX_VALUE
        invariant FirstFree(zipEntrySet, body, suffix, i) == UniquePath(zipEntrySet, body, suffix)
        invariant zipEntrySet == old(zipEntrySet) && zip == old(zip) && progress == old(progress)
      {
        var p := body + "$$" + Decimal(i) + suffix;
        assert p == Probe(body, i, suffix);
        ghost var before := zipEntrySet;
        added := AddEntryName(p);
        if added {
          return Some(p);
        }
        assert zipEntrySet == before;
      }
      return None;
    }

    /** `makePath(base, name)`. */
    method MakePath(base: string, name: string) returns (path: Option<string>)
      modifies this
      ensures path == UniquePath(old(zipEntrySet), PathBody(base, name), ".xml")
      ensures zipEntrySet == if path.Some? then old(zipEntrySet) + {path.value} else old(zipEntrySet)
      ensures zip == old(zip) && progress == old(progress)
    {
      path := MakeUniquePath(base + "/" + ToFileNameString(name), ".xml");
    }

    /** `makePath(base, name, suffix)`. */
    method MakeChunkPath(base: string, name: string, suffix: string) returns (path: Option<string>)
      modifies this
      ensures path == UniquePath(old(zipEntrySet), PathBody(base, name), suffix + ".xml")
      ensures zipEntrySet == if path.Some? then old(zipEntrySet) + {path.value} else old(zipEntrySet)
      ensures zip == old(zip) && progress == old(progress)
    {
      path := MakeUniquePath(base + "/" + ToFileNameString(name), suffix + ".xml");
    }

    /** `writeZipEntry(zos, path, data)`; the `runCatching` around the stream calls has nothing to catch here. */
    method WriteZipEntry(path: string, data: string)
      modifies this
      ensures zip == old(zip) + [ZipEntry(path, data)]
      ensures zipEntrySet == old(zipEntrySet) && progress == old(progress)
    {
      zip := zip + [ZipEntry(path, data)];
    }

    /** The entry name of `page`: the `makePath` call of the `onNext` block. */
    method PagePath(base: string, id: string, page: MS.Page) returns (path: Option<string>)
      modifies this
      ensures path == UniquePath(old(zipEntrySet), PathBody(base, id), PageSuffix(page))
      ensures zipEntrySet == if path.Some? then old(zipEntrySet) + {path.value} else old(zipEntrySet)
      ensures zip == old(zip) && progress == old(progress)
    {
      var start := page.start;
      var end := Wrap(start + page.number - 1);
      if start == 0 && page.number == page.total {
        assert PageSuffix(page) == ".xml";
        path := MakePath(base, id);
      } else {
        assert PageSuffix(page) == RangeSuffix(start, end) + ".xml";
        path := MakeChunkPath(base, id, RangeSuffix(start, end));
      }
    }

    /** The `forEach` over a page's objects and the progress text that follows it. */
    method Discovered(ghost w: Walk, idList: seq<string>, count: int, objects: seq<CdsObject>)
      returns (idList': seq<string>, count': int)
      requires w.queue == idList && w.count == count && w.archive == Archive(zipEntrySet, zip) && w.progress == progress
      modifies this
      ensures var v := Discover(w, objects);
        idList' == v.queue && count' == v.count && Archive(zipEntrySet, zip) == v.archive && progress == v.progress
    {
      idList', count' := EnqueueContainers(idList, count, objects);
      progress := progress + [ProgressText(count' - |idList'|, count')];
    }

    /**
     * The `onNext` block for `page` of `id`'s browse, from the state `w` whose
     * queue is `idList` and whose counter is `count`; `ok` is `false` when
     * `makePath` threw.
     */
    method OnNext(base: string, id: string, ghost w: Walk, idList: seq<string>, count: int, page: MS.Page)
      returns (idList': seq<string>, count': int, ok: bool)
      requires w.queue == idList && w.count == count && w.archive == Archive(zipEntrySet, zip) && w.progress == progress
      modifies this
      ensures var pass := HandlePage(w, base, id, page);
        ok == pass.stop.None? && idList' == pass.walk.queue && count' == pass.walk.count &&
        Archive(zipEntrySet, zip) == pass.walk.archive && progress == pass.walk.progress
    {
      idList', count' := Discovered(w, idList, count, page.list);
      var path := PagePath(base, id, page);
      if path.None? {
        return idList', count', false;
      }
      WriteZipEntry(path.value, page.description);
      ok := true;
    }

    /** The subscription to `id`'s browse: each page goes to `OnNext` until one throws, which disposes the stream. */
    method Subscribe(base: string, id: string, ghost w: Walk, idList: seq<string>, count: int, pages: seq<MS.Page>)
      returns (idList': seq<string>, count': int)
      requires w.queue == idList && w.count == count && w.archive == Archive(zipEntrySet, zip) && w.progress == progress
      modifies this
      ensures var v := Deliver(OnPage(base, id), w, pages, 0);
        idList' == v.queue && count' == v.count && Archive(zipEntrySet, zip) == v.archive && progress == v.progress
    {
      idList', count' := idList, count;
      ghost var v := w;
      for k := 0 to |pages|
        invariant Deliver(OnPage(base, id), v, pages, k) == Deliver(OnPage(base, id), w, pages, 0)
        invariant v.queue == idList' && v.count == count' && v.archive == Archive(zipEntrySet, zip) && v.progress == progress
      {
        var ok;
        idList', count', ok := OnNext(base, id, v, idList', count', pages[k]);
        v := HandlePage(v, base, id, pages[k]).walk;
        if !ok {
          return;
        }
      }
    }

    /**
     * One pass of the `while` body of `dumpAllDir`, from the state `w` whose
     * queue is `idList`: `pollFirst`, then the browse of that ID subscribed to.
     */
    method Visit(base: string, catalog: Catalog, children: MS.ChildParser, ghost w: Walk, idList: seq<string>, count: int)
      returns (idList': seq<string>, count': int)
      requires idList != []
      requires w.queue == idList && w.count == count && w.archive == Archive(zipEntrySet, zip) && w.progress == progress
      modifies this
      ensures var v := KtStep(w, base, catalog, children);
        idList' == v.queue && count' == v.count && Archive(zipEntrySet, zip) == v.archive && progress == v.progress
    {
      var id := idList[0];
      var pages, _ := MS.Browse(catalog(id), children, MS.Never, 0, 0);
      idList', count' := Subscribe(base, id, Pop(w), idList[1..], count, pages);
    }

    /**
     * `dumpAllDir(zos, server)` browsing at most `limit` IDs. The new names,
     * entries and status texts are those of the walk `Run` from the root.
     */
    method DumpAllDir(friendlyName: string, catalog: Catalog, children: MS.ChildParser, cancel: nat -> bool, limit: nat)
      modifies this
      ensures var r := Run(CdsBase(friendlyName), catalog, children, cancel,
                           InitialWalk(Archive(old(zipEntrySet), old(zip)), old(progress)), limit);
        Archive(zipEntrySet, zip) == r.walk.archive && progress == r.walk.progress
    {
      var base := ToFileNameString(friendlyName) + "/cds";
      var idList: seq<string> := [];
      var count := 1;
      idList := ["0"] + idList;
      var steps: nat := 0;
      ghost var w := InitialWalk(Archive(zipEntrySet, zip), progress);
      ghost var fuel := limit;
      ghost var target := Run(base, catalog, children, cancel, w, fuel);
      assert base == CdsBase(friendlyName);
      while !cancel(steps)
        invariant steps == |w.popped| && steps + fuel == limit
        invariant w.queue == idList && w.count == count && w.archive == Archive(zipEntrySet, zip) && w.progress == progress
        invariant Run(base, catalog, children, cancel, w, fuel) == target
        decreases fuel
      {
        if |idList| == 0 || steps == limit {
          return;
        }
        ghost var next := KtStep(w, base, catalog, children);
        RunUnfold(base, catalog, children, cancel, w, fuel);
        idList, count := Visit(base, catalog, children, w, idList, count);
        w, fuel := next, fuel - 1;
        steps := steps + 1;
      }
    }
  }
}
