/**
 * What both `MainWindow.dumpAllDir` versions share: the state of the
 * breadth-first walk over the catalog (the FIFO queue of object IDs and
 * `count`), the zip archive as a log of (path, data) writes together with the
 * set of names used so far, and the progress texts shown to the user.
 */
module ExtractorWalk {
  import opened Wrappers
  import opened CdsTypes
  import opened ArchivePaths

  /** One zip entry written: its name and its text. */
  datatype ZipEntry = ZipEntry(path: string, data: string)

  /** The zip archive: the names reserved so far (`zipEntrySet`) and the entries written, in order. */
  datatype Archive = Archive(reserved: set<string>, entries: seq<ZipEntry>)

  /**
   * The walk: the queue of IDs still to browse, `count`, the archive, and the
   * progress texts set so far. `popped` (the IDs taken from the queue) and
   * `found` (the container IDs appended to it) do not exist in the source;
   * they record the walk's history for the lemmas.
   */
  datatype Walk = Walk(queue: seq<string>, count: int, popped: seq<string>, found: seq<string>,
                       archive: Archive, progress: seq<string>)

  /** How `dumpAllDir` ends. `StepLimit`: the model's bound on the number of IDs browsed was reached. */
  datatype WalkEnd = Completed | Cancelled | BrowseFailed | PathsExhausted | StepLimit

  /** The walk after one pass of the loop body, and how that pass ended the walk (`None`: the loop goes on). */
  datatype Pass = Pass(walk: Walk, stop: Option<WalkEnd>)

  /** The walk when `dumpAllDir` returns, and why it returned. */
  datatype Finished = Finished(walk: Walk, end: WalkEnd)

  /** The archive after a series of writes, and whether every `makePath` returned (`false`: one threw). */
  datatype Written = Written(archive: Archive, ok: bool)

  /** The walk's start: the queue holds the root `"0"` and `count` is 1. */
  function InitialWalk(archive: Archive, progress: seq<string>): Walk {
    Walk(["0"], 1, [], [], archive, progress)
  }

  /** The object IDs of the containers among `objects`, in order. */
  function ContainerIds(objects: seq<CdsObject>): (ids: seq<string>)
    ensures |ids| <= |objects|
  {
    if objects == [] then []
    else
      var init := objects[..|objects| - 1];
      var last := objects[|objects| - 1];
      if last.isContainer then ContainerIds(init) + [last.objectId] else ContainerIds(init)
  }

  /** Every ID queued is the ID of a container among the objects. */
  lemma {:induction false} ContainerIdsAreContainers(objects: seq<CdsObject>)
    ensures forall id :: id in ContainerIds(objects) ==> exists o :: o in objects && o.isContainer && o.objectId == id
  {
    if objects != [] {
      var init := objects[..|objects| - 1];
      ContainerIdsAreContainers(init);
      assert forall o :: o in init ==> o in objects;
    }
  }

  /** Appending the containers of a list of objects to the back of the queue, `count` going up by one for each. */
  function Enqueue(w: Walk, objects: seq<CdsObject>): Walk {
    var ids := ContainerIds(objects);
    w.(queue := w.queue + ids, count := w.count + |ids|, found := w.found + ids)
  }

  /** `Enqueue`, then the progress text `(count - queue size) + "/" + count`. */
  function Discover(w: Walk, objects: seq<CdsObject>): Walk {
    var w' := Enqueue(w, objects);
    w'.(progress := w'.progress + [ProgressText(w'.count - |w'.queue|, w'.count)])
  }

  /** Taking the first ID off the queue. */
  function Pop(w: Walk): Walk
    requires w.queue != []
  {
    w.(queue := w.queue[1..], popped := w.popped + [w.queue[0]])
  }

  /** `writeZipEntry(zos, makeUniquePath(body, suffix), data)`; `None` when `makeUniquePath` throws. */
  function WriteEntry(a: Archive, body: string, suffix: string, data: string): (r: Option<Archive>)
    ensures r.None? <==> UniquePath(a.reserved, body, suffix).None?
  {
    match UniquePath(a.reserved, body, suffix)
    case None => None
    case Some(path) => Some(Archive(a.reserved + {path}, a.entries + [ZipEntry(path, data)]))
  }

  /**
   * The walk's bookkeeping: the IDs taken from the queue followed by the queue
   * are the root followed by every container found, in order, and
   * `count` is one more than the number of containers found, so it equals the
   * number of IDs taken plus the queue's size.
   */
  ghost predicate Fifo(w: Walk) {
    w.popped + w.queue == ["0"] + w.found && w.count == 1 + |w.found|
  }

  /** Every entry's name is reserved, and no two entries share a name. */
  ghost predicate Consistent(a: Archive) {
    (forall i :: 0 <= i < |a.entries| ==> a.entries[i].path in a.reserved) &&
    (forall i, j :: 0 <= i < j < |a.entries| ==> a.entries[i].path != a.entries[j].path)
  }

  /** `a` follows `a0`: more names reserved, earlier entries kept, and every new entry under a name that was free in `a0`. */
  ghost predicate Extends(a0: Archive, a: Archive) {
    a0.reserved <= a.reserved && |a0.entries| <= |a.entries| && a.entries[..|a0.entries|] == a0.entries &&
    forall i :: |a0.entries| <= i < |a.entries| ==> a.entries[i].path !in a0.reserved
  }

  lemma ExtendsTransitive(a0: Archive, a1: Archive, a2: Archive)
    requires Extends(a0, a1) && Extends(a1, a2)
    ensures Extends(a0, a2)
  {
    assert a2.entries[..|a0.entries|] == a2.entries[..|a1.entries|][..|a0.entries|];
    forall i | |a0.entries| <= i < |a2.entries| ensures a2.entries[i].path !in a0.reserved {
      if i < |a1.entries| {
        assert a2.entries[i] == a2.entries[..|a1.entries|][i];
      }
    }
  }

  /** `d` lies in `base`'s directory. */
  predicate Under(base: string, d: string) {
    base + "/" <= d
  }

  /** `a` follows `a0`, and every entry added lies in `base`'s directory. */
  ghost predicate GrowsUnder(a0: Archive, a: Archive, base: string) {
    Extends(a0, a) && forall i :: |a0.entries| <= i < |a.entries| ==> Under(base, a.entries[i].path)
  }

  lemma GrowsUnderTransitive(a0: Archive, a1: Archive, a2: Archive, base: string)
    requires GrowsUnder(a0, a1, base) && GrowsUnder(a1, a2, base)
    ensures GrowsUnder(a0, a2, base)
  {
    ExtendsTransitive(a0, a1, a2);
    forall i | |a0.entries| <= i < |a2.entries| ensures Under(base, a2.entries[i].path) {
      if i < |a1.entries| {
        assert a2.entries[i] == a2.entries[..|a1.entries|][i];
      }
    }
  }

  /**
   * A write goes under a name that was free, reserves exactly that name and
   * keeps the earlier entries: names stay unique within the archive.
   */
  lemma WriteEntryFresh(a: Archive, body: string, suffix: string, data: string)
    requires Consistent(a)
    ensures var r := WriteEntry(a, body, suffix, data);
      r.Some? ==> Consistent(r.value) && Extends(a, r.value) && |r.value.entries| == |a.entries| + 1 &&
                  r.value.reserved == a.reserved + {r.value.entries[|a.entries|].path}
  {
  }

  /** Proof helper: regrouping a concatenation, which costs little here and much in the larger contexts that need it. */
  lemma ConcatAssociative<T>(a: seq<T>, b: seq<T>, c: seq<T>)
    ensures (a + b) + c == a + (b + c)
  {
  }

  /** Taking an ID and appending the containers found keeps the bookkeeping; the progress text counts the IDs taken. */
  lemma DiscoverKeepsFifo(w: Walk, objects: seq<CdsObject>)
    requires Fifo(w)
    ensures var w' := Discover(w, objects);
      Fifo(w') && w'.popped == w.popped &&
      w'.progress == w.progress + [ProgressText(|w.popped|, w'.count)] &&
      w'.queue == w.queue + ContainerIds(objects)
  {
    var w1 := Enqueue(w, objects);
    var ids := ContainerIds(objects);
    assert w1.popped + w1.queue == (w.popped + w.queue) + ids;
    assert w1.count - |w1.queue| == |w.popped|;
  }

  lemma PopKeepsFifo(w: Walk)
    requires Fifo(w) && w.queue != []
    ensures Fifo(Pop(w))
  {
    assert [w.queue[0]] + w.queue[1..] == w.queue;
  }

  /** `e` ends the walk because something failed: a browse, or a `makePath` that threw. */
  predicate IsError(e: WalkEnd) {
    e == BrowseFailed || e == PathsExhausted
  }

  /**
   * The `while` loop of `dumpAllDir` from `w`, `pass` being one pass of its
   * body: it returns when the queue is empty, when the cancel flag (read after
   * as many passes as IDs taken) is set, when a pass ends the walk, or after
   * `fuel` passes.
   */
  function Loop(pass: Walk -> Pass, cancel: nat -> bool, w: Walk, fuel: nat): Finished
    decreases fuel
  {
    if w.queue == [] then Finished(w, Completed)
    else if cancel(|w.popped|) then Finished(w, Cancelled)
    else if fuel == 0 then Finished(w, StepLimit)
    else if pass(w).stop.Some? then Finished(pass(w).walk, pass(w).stop.value)
    else Loop(pass, cancel, pass(w).walk, fuel - 1)
  }

  /** A property every pass keeps holds when the loop returns. */
  lemma {:induction false} LoopKeeps(pass: Walk -> Pass, cancel: nat -> bool, inv: Walk -> bool, w: Walk, fuel: nat)
    requires inv(w)
    requires forall v: Walk :: inv(v) && v.queue != [] ==> inv(pass(v).walk)
    ensures inv(Loop(pass, cancel, w, fuel).walk)
    decreases fuel
  {
    if w.queue != [] && !cancel(|w.popped|) && fuel > 0 && pass(w).stop.None? {
      LoopKeeps(pass, cancel, inv, pass(w).walk, fuel - 1);
    }
  }

  /**
   * When passes end the walk only on errors, the loop returns `Completed`
   * only with the queue empty and `Cancelled` only with the flag set and IDs
   * left.
   */
  lemma {:induction false} LoopEnds(pass: Walk -> Pass, cancel: nat -> bool, w: Walk, fuel: nat)
    requires forall v: Walk :: v.queue != [] && pass(v).stop.Some? ==> IsError(pass(v).stop.value)
    ensures var r := Loop(pass, cancel, w, fuel);
      && (r.end == Completed ==> r.walk.queue == [])
      && (r.end == Cancelled ==> r.walk.queue != [] && cancel(|r.walk.popped|))
    decreases fuel
  {
    if w.queue != [] && !cancel(|w.popped|) && fuel > 0 && pass(w).stop.None? {
      LoopEnds(pass, cancel, pass(w).walk, fuel - 1);
    }
  }

  /** When every pass takes one ID, the loop returns `StepLimit` only after exactly `fuel` passes. */
  lemma {:induction false} LoopStepLimit(pass: Walk -> Pass, cancel: nat -> bool, w: Walk, fuel: nat)
    requires forall v: Walk :: v.queue != [] ==> |pass(v).walk.popped| == |v.popped| + 1 && pass(v).stop != Some(StepLimit)
    ensures var r := Loop(pass, cancel, w, fuel);
      r.end == StepLimit ==> |r.walk.popped| == |w.popped| + fuel
    decreases fuel
  {
    if w.queue != [] && !cancel(|w.popped|) && fuel > 0 && pass(w).stop.None? {
      LoopStepLimit(pass, cancel, pass(w).walk, fuel - 1);
    }
  }

  /** The loop only takes IDs off the queue, one per pass, so at most `fuel` of them. */
  lemma {:induction false} LoopTakes(pass: Walk -> Pass, cancel: nat -> bool, w: Walk, fuel: nat)
    requires forall v: Walk :: v.queue != [] ==> pass(v).walk.popped == v.popped + [v.queue[0]]
    ensures var r := Loop(pass, cancel, w, fuel);
      w.popped <= r.walk.popped && |r.walk.popped| <= |w.popped| + fuel
    decreases fuel
  {
    if w.queue != [] && !cancel(|w.popped|) && fuel > 0 {
      var v := pass(w).walk;
      assert w.popped <= w.popped + [w.queue[0]];
      if pass(w).stop.None? {
        LoopTakes(pass, cancel, v, fuel - 1);
        assert w.popped <= Loop(pass, cancel, v, fuel - 1).walk.popped;
      }
    }
  }

  /** An error `e` ends the loop in the state the failing pass left: what every such pass leaves holds then. */
  lemma {:induction false} LoopStopsAfter(pass: Walk -> Pass, cancel: nat -> bool, e: WalkEnd, q: Walk -> bool, w: Walk, fuel: nat)
    requires IsError(e)
    requires forall v: Walk :: v.queue != [] && pass(v).stop == Some(e) ==> q(pass(v).walk)
    ensures var r := Loop(pass, cancel, w, fuel); r.end == e ==> q(r.walk)
    decreases fuel
  {
    if w.queue != [] && !cancel(|w.popped|) && fuel > 0 && pass(w).stop.None? {
      LoopStopsAfter(pass, cancel, e, q, pass(w).walk, fuel - 1);
    }
  }

  /** `toFileNameString(friendlyName) + "/cds"`: the directory of the catalog's entries. */
  function CdsBase(friendlyName: string): string {
    ToFileNameString(friendlyName) + "/cds"
  }

  /** The loop over a result's objects: each container's ID goes to the back of `idList` and `count` goes up by one. */
  method EnqueueContainers(idList: seq<string>, count: int, objects: seq<CdsObject>)
    returns (idList': seq<string>, count': int)
    ensures idList' == idList + ContainerIds(objects)
    ensures count' == count + |ContainerIds(objects)|
  {
    idList', count' := idList, count;
    for k := 0 to |objects|
      invariant idList' == idList + ContainerIds(objects[..k])
      invariant count' == count + |ContainerIds(objects[..k])|
    {
      assert objects[..k + 1][..k] == objects[..k];
      if objects[k].isContainer {
        idList' := idList' + [objects[k].objectId];
        count' := count' + 1;
      }
    }
    assert objects[..|objects|] == objects;
  }
}
