/**
 * The Java `MainWindow`: the catalog walk `dumpAllDir` and the entry naming
 * (`makePath`, `makeUniquePath`) it writes with. The window's fields that the
 * walk updates are the set of entry names used (`mZipEntrySet`), the zip
 * stream (a log of the entries written) and the status text (a log of the
 * texts set). The server is the parameter `browse`, the cancel flag the
 * parameter `cancel`, read at each loop head with the number of IDs taken so far.
 */
module MainWindowJava {
  import opened Wrappers
  import opened JavaInt
  import opened CdsTypes
  import opened ArchivePaths
  import opened TextParseUtils
  import opened ExtractorWalk

  /**
   * `server.browse(id)` followed by `result.get()`: `Interrupted` when `get`
   * throws `InterruptedException` or `ExecutionException`; otherwise the
   * objects (`null` when the browse failed) and the description list.
   */
  datatype BrowseResult = Interrupted | Browsed(objects: Option<seq<CdsObject>>, descriptions: seq<Description>)

  type Browser = string -> BrowseResult

  /** The IDs of the containers a browse returned, in order: none when it was interrupted or its objects are `null`. */
  function Containers(r: BrowseResult): seq<string> {
    if r.Browsed? && r.objects.Some? then ContainerIds(r.objects.value) else []
  }

  /** The suffix of the `k`-th description's entry: none when it is the only one, else `"(start-end)"`, then `.xml`. */
  function DescriptionSuffix(descriptions: seq<Description>, k: nat): (s: string)
    requires k < |descriptions|
  {
    var d := descriptions[k];
    if |descriptions| == 1 then ".xml" else RangeSuffix(d.start, Wrap(d.number + d.start - 1)) + ".xml"
  }

  /** A description is named by the ID alone exactly when it is the only one; every name ends in `.xml`. */
  lemma DescriptionSuffixNaming(descriptions: seq<Description>, k: nat)
    requires k < |descriptions|
    ensures var s := DescriptionSuffix(descriptions, k);
      && (s == ".xml" <==> |descriptions| == 1)
      && |s| >= 4 && s[|s| - 4..] == ".xml"
  {
    var d := descriptions[k];
    if |descriptions| != 1 {
      var s := DescriptionSuffix(descriptions, k);
      assert s[0] == '(';
    }
  }

  /**
   * The descriptions from the `k`-th on written under `id`; `false` when a
   * `makePath` threw, the archive being the one before that write.
   */
  function WriteDescriptions(a: Archive, base: string, id: string, descriptions: seq<Description>, k: nat): (r: Written)
    requires k <= |descriptions|
    decreases |descriptions| - k
  {
    if k == |descriptions| then Written(a, true)
    else match WriteEntry(a, PathBody(base, id), DescriptionSuffix(descriptions, k), descriptions[k].xml)
      case None => Written(a, false)
      case Some(a') => WriteDescriptions(a', base, id, descriptions, k + 1)
  }

  /** Proof helper: `WriteDescriptions` unfolded at the `k`-th description. */
  lemma WriteDescriptionsStep(a: Archive, base: string, id: string, descriptions: seq<Description>, k: nat)
    requires k < |descriptions|
    ensures var path := UniquePath(a.reserved, PathBody(base, id), DescriptionSuffix(descriptions, k));
      WriteDescriptions(a, base, id, descriptions, k) ==
        if path.None? then Written(a, false)
        else WriteDescriptions(Archive(a.reserved + {path.value}, a.entries + [ZipEntry(path.value, descriptions[k].xml)]),
                               base, id, descriptions, k + 1)
  {
  }

  /**
   * One pass of the `while` body: the ID taken, the browse, the containers
   * queued, the progress text, the entries written. A pass takes the queue's
   * first ID and appends to the back of the queue the containers its browse
   * returned, in order. A browse whose objects are `null` changes nothing
   * else. A pass ends the walk only with `BrowseFailed`, exactly when its
   * browse was interrupted, or with `PathsExhausted`.
   */
  function Step(w: Walk, base: string, browse: Browser): (pass: Pass)
    requires w.queue != []
    ensures pass.walk.popped == w.popped + [w.queue[0]]
    ensures pass.walk.queue == w.queue[1..] + Containers(browse(w.queue[0]))
    ensures pass.walk.found == w.found + Containers(browse(w.queue[0]))
    ensures browse(w.queue[0]).Browsed? && browse(w.queue[0]).objects.None? ==> pass == Pass(Pop(w), None)
    ensures pass.stop == None || pass.stop == Some(BrowseFailed) || pass.stop == Some(PathsExhausted)
    ensures pass.stop == Some(BrowseFailed) <==> browse(w.queue[0]).Interrupted?
  {
    var id := w.queue[0];
    var w1 := Pop(w);
    match browse(id)
    case Interrupted => Pass(w1, Some(BrowseFailed))
    case Browsed(None, _) => Pass(w1, None)
    case Browsed(Some(objects), descriptions) =>
      var w2 := Discover(w1, objects);
      var written := WriteDescriptions(w2.archive, base, id, descriptions, 0);
      Pass(w2.(archive := written.archive), if written.ok then None else Some(PathsExhausted))
  }

  /** The `while` body as a pass over any walk; the loop runs it only while the queue is not empty. */
  function JavaPass(base: string, browse: Browser): Walk -> Pass {
    (w: Walk) => if w.queue == [] then Pass(w, None) else Step(w, base, browse)
  }

  /** The `while` loop of the Java `dumpAllDir` from state `w`, browsing at most `fuel` more IDs. */
  function Run(base: string, browse: Browser, cancel: nat -> bool, w: Walk, fuel: nat): Finished {
    Loop(JavaPass(base, browse), cancel, w, fuel)
  }

  /** The entries of `a'` after those of `a` are the `xml` of the descriptions from the `k`-th on, in order, all named under `body`. */
  ghost predicate WritesOf(a: Archive, a': Archive, body: string, descriptions: seq<Description>, k: nat) {
    |a.entries| <= |a'.entries| <= |a.entries| + |descriptions| - k &&
    forall i :: |a.entries| <= i < |a'.entries| ==>
      body <= a'.entries[i].path && a'.entries[i].data == descriptions[k + i - |a.entries|].xml
  }

  /** One more entry, for the next description, keeps `WritesOf`. */
  lemma WritesOfSnoc(a: Archive, v: Archive, v': Archive, body: string, descriptions: seq<Description>, k: nat)
    requires WritesOf(a, v, body, descriptions, k) && |v.entries| < |a.entries| + |descriptions| - k
    requires |v'.entries| == |v.entries| + 1 && v'.entries[..|v.entries|] == v.entries
    requires body <= v'.entries[|v.entries|].path
    requires v'.entries[|v.entries|].data == descriptions[k + |v.entries| - |a.entries|].xml
    ensures WritesOf(a, v', body, descriptions, k)
  {
    forall i | |a.entries| <= i < |v'.entries|
      ensures body <= v'.entries[i].path && v'.entries[i].data == descriptions[k + i - |a.entries|].xml
    {
      if i < |v.entries| {
        assert v'.entries[i] == v'.entries[..|v.entries|][i];
      }
    }
  }

  /** Writing the `j`-th description keeps the archive consistent, following `a`, and holding the descriptions from the `k`-th on. */
  lemma WriteEntryKeeps(a: Archive, v: Archive, body: string, suffix: string, descriptions: seq<Description>, k: nat, j: nat)
    requires k <= j < |descriptions|
    requires Consistent(v) && Extends(a, v) && WritesOf(a, v, body, descriptions, k) && |v.entries| == |a.entries| + j - k
    ensures var e := WriteEntry(v, body, suffix, descriptions[j].xml);
      e.Some? ==> Consistent(e.value) && Extends(a, e.value) && WritesOf(a, e.value, body, descriptions, k) &&
                  |e.value.entries| == |a.entries| + j + 1 - k
  {
    var e := WriteEntry(v, body, suffix, descriptions[j].xml);
    WriteEntryFresh(v, body, suffix, descriptions[j].xml);
    UniquePathPrefix(v.reserved, body, suffix);
    if e.Some? {
      ExtendsTransitive(a, v, e.value);
      WritesOfSnoc(a, v, e.value, body, descriptions, k);
    }
  }

  /** The index of the description `WriteDescriptions` stopped at: the end of the list when every write succeeded. */
  ghost function StopIndex(a: Archive, base: string, id: string, descriptions: seq<Description>, k: nat): nat
    requires k <= |descriptions|
    decreases |descriptions| - k
  {
    if k == |descriptions| then k
    else match WriteEntry(a, PathBody(base, id), DescriptionSuffix(descriptions, k), descriptions[k].xml)
      case None => k
      case Some(a') => StopIndex(a', base, id, descriptions, k + 1)
  }

  /** What every write of one description keeps holds once `WriteDescriptions` returns, at the index it stopped at. */
  lemma {:induction false} WriteDescriptionsKeeps(a: Archive, base: string, id: string, descriptions: seq<Description>, k: nat,
                                                  inv: (Archive, nat) -> bool)
    requires k <= |descriptions| && inv(a, k)
    requires forall v: Archive, j: nat
      {:trigger WriteEntry(v, PathBody(base, id), DescriptionSuffix(descriptions, j), descriptions[j].xml)} ::
      k <= j < |descriptions| && inv(v, j) ==>
      var e := WriteEntry(v, PathBody(base, id), DescriptionSuffix(descriptions, j), descriptions[j].xml);
      e.Some? ==> inv(e.value, j + 1)
    ensures var r, j := WriteDescriptions(a, base, id, descriptions, k), StopIndex(a, base, id, descriptions, k);
      k <= j <= |descriptions| && inv(r.archive, j) && (r.ok ==> j == |descriptions|)
    decreases |descriptions| - k
  {
    if k < |descriptions| {
      var e := WriteEntry(a, PathBody(base, id), DescriptionSuffix(descriptions, k), descriptions[k].xml);
      if e.None? {
        assert WriteDescriptions(a, base, id, descriptions, k) == Written(a, false);
      } else {
        assert inv(e.value, k + 1);
        WriteDescriptionsKeeps(e.value, base, id, descriptions, k + 1, inv);
        assert WriteDescriptions(a, base, id, descriptions, k) == WriteDescriptions(e.value, base, id, descriptions, k + 1);
        assert StopIndex(a, base, id, descriptions, k) == StopIndex(e.value, base, id, descriptions, k + 1);
      }
    } else {
      assert WriteDescriptions(a, base, id, descriptions, k) == Written(a, true);
    }
  }

  /**
   * The descriptions from the `k`-th on go under fresh, distinct names in
   * `id`'s directory, one entry per description and in order, until a
   * `makePath` throws.
   */
  lemma WriteDescriptionsFresh(a: Archive, base: string, id: string, descriptions: seq<Description>, k: nat)
    requires Consistent(a) && k <= |descriptions|
    ensures var r := WriteDescriptions(a, base, id, descriptions, k);
      && Consistent(r.archive) && Extends(a, r.archive) && WritesOf(a, r.archive, PathBody(base, id), descriptions, k)
      && (r.ok ==> |r.archive.entries| == |a.entries| + |descriptions| - k)
  {
    var body := PathBody(base, id);
    var inv := (v: Archive, j: nat) =>
      Consistent(v) && Extends(a, v) && WritesOf(a, v, body, descriptions, k) && |v.entries| == |a.entries| + j - k;
    forall v: Archive, j: nat | k <= j < |descriptions| && inv(v, j)
      ensures var e := WriteEntry(v, body, DescriptionSuffix(descriptions, j), descriptions[j].xml);
        e.Some? ==> inv(e.value, j + 1)
    {
      WriteEntryKeeps(a, v, body, DescriptionSuffix(descriptions, j), descriptions, k, j);
    }
    assert a.entries[..|a.entries|] == a.entries;
    WriteDescriptionsKeeps(a, base, id, descriptions, k, inv);
  }

  /** A pass of the loop takes the queue's first ID and keeps the queue's bookkeeping. */
  lemma StepKeepsFifo(w: Walk, base: string, browse: Browser)
    requires w.queue != [] && Fifo(w)
    ensures var w' := Step(w, base, browse).walk;
      Fifo(w') && w'.popped == w.popped + [w.queue[0]]
  {
    var id := w.queue[0];
    PopKeepsFifo(w);
    match browse(id)
    case Interrupted =>
    case Browsed(None, _) =>
    case Browsed(Some(objects), descriptions) =>
      DiscoverKeepsFifo(Pop(w), objects);
  }

  /** A pass of the loop writes fresh, distinct names, all under `base`. */
  lemma StepKeepsArchive(w: Walk, base: string, browse: Browser)
    requires w.queue != [] && Consistent(w.archive)
    ensures var a := Step(w, base, browse).walk.archive;
      Consistent(a) && GrowsUnder(w.archive, a, base)
  {
    var id := w.queue[0];
    assert w.archive.entries[..|w.archive.entries|] == w.archive.entries;
    match browse(id)
    case Interrupted =>
    case Browsed(None, _) =>
    case Browsed(Some(objects), descriptions) =>
      var w2 := Discover(Pop(w), objects);
      assert w2.archive == w.archive;
      WriteDescriptionsFresh(w.archive, base, id, descriptions, 0);
      var a := WriteDescriptions(w.archive, base, id, descriptions, 0).archive;
      assert base + "/" <= base + "/" + ToFileNameString(id);
      forall i | |w.archive.entries| <= i < |a.entries| ensures Under(base, a.entries[i].path) {
        assert base + "/" <= PathBody(base, id) <= a.entries[i].path;
      }
  }

  /** The containers the browses of `ids` returned, one browse after another. */
  function FoundAll(browse: Browser, ids: seq<string>): seq<string> {
    if ids == [] then [] else FoundAll(browse, ids[..|ids| - 1]) + Containers(browse(ids[|ids| - 1]))
  }

  /** A pass appends to `found` what the browse of the ID it takes returned. */
  lemma StepFinds(v: Walk, base: string, browse: Browser, taken: nat, found: seq<string>)
    requires v.queue != [] && taken <= |v.popped| && v.found == found + FoundAll(browse, v.popped[taken..])
    ensures var v' := Step(v, base, browse).walk;
      v.popped <= v'.popped && v'.found == found + FoundAll(browse, v'.popped[taken..])
  {
    var id := v.queue[0];
    var v' := Step(v, base, browse).walk;
    var ids := v.popped[taken..];
    var ids' := ids + [id];
    assert v'.popped[taken..] == ids';
    assert ids'[..|ids'| - 1] == ids;
    var before, more := FoundAll(browse, ids), Containers(browse(id));
    assert FoundAll(browse, ids') == before + more;
    ConcatAssociative(found, before, more);
  }

  /**
   * The loop keeps the bookkeeping: the IDs browsed are, in order, the root
   * and then the containers found, and the containers found since `w` are
   * those the browses of the IDs taken since `w` returned, in the order taken:
   * the walk is breadth-first.
   */
  lemma RunKeepsFifo(base: string, browse: Browser, cancel: nat -> bool, w: Walk, fuel: nat)
    requires Fifo(w)
    ensures var v := Run(base, browse, cancel, w, fuel).walk;
      Fifo(v) && w.popped <= v.popped && v.found == w.found + FoundAll(browse, v.popped[|w.popped|..])
  {
    var pass := JavaPass(base, browse);
    var inv := (v: Walk) => Fifo(v) && w.popped <= v.popped && v.found == w.found + FoundAll(browse, v.popped[|w.popped|..]);
    forall v: Walk | inv(v) && v.queue != [] ensures inv(pass(v).walk) {
      assert pass(v) == Step(v, base, browse);
      StepKeepsFifo(v, base, browse);
      StepFinds(v, base, browse, |w.popped|, w.found);
    }
    assert w.popped[|w.popped|..] == [];
    LoopKeeps(pass, cancel, inv, w, fuel);
  }

  /** The loop takes IDs from the front of the queue only, at most `fuel` of them. */
  lemma RunTakes(base: string, browse: Browser, cancel: nat -> bool, w: Walk, fuel: nat)
    ensures var w' := Run(base, browse, cancel, w, fuel).walk;
      w.popped <= w'.popped && |w'.popped| <= |w.popped| + fuel
  {
    var pass := JavaPass(base, browse);
    forall v: Walk | v.queue != [] ensures pass(v).walk.popped == v.popped + [v.queue[0]] {
      assert pass(v) == Step(v, base, browse);
    }
    LoopTakes(pass, cancel, w, fuel);
  }

  /** The loop never reuses a name and writes only under `base`. */
  lemma RunKeepsArchive(base: string, browse: Browser, cancel: nat -> bool, w: Walk, fuel: nat)
    requires Consistent(w.archive)
    ensures var a := Run(base, browse, cancel, w, fuel).walk.archive;
      Consistent(a) && GrowsUnder(w.archive, a, base)
  {
    var pass := JavaPass(base, browse);
    var inv := (v: Walk) => Consistent(v.archive) && GrowsUnder(w.archive, v.archive, base);
    forall v: Walk | inv(v) && v.queue != [] ensures inv(pass(v).walk) {
      StepKeepsArchive(v, base, browse);
      GrowsUnderTransitive(w.archive, v.archive, pass(v).walk.archive, base);
    }
    assert w.archive.entries[..|w.archive.entries|] == w.archive.entries;
    LoopKeeps(pass, cancel, inv, w, fuel);
  }

  /**
   * Why the loop stopped: `Completed` with the queue empty, `Cancelled` with
   * the flag set and IDs left, `StepLimit` after `fuel` IDs.
   */
  lemma RunEnds(base: string, browse: Browser, cancel: nat -> bool, w: Walk, fuel: nat)
    ensures var r := Run(base, browse, cancel, w, fuel);
      && (r.end == Completed ==> r.walk.queue == [])
      && (r.end == Cancelled ==> r.walk.queue != [] && cancel(|r.walk.popped|))
      && (r.end == StepLimit ==> |r.walk.popped| == |w.popped| + fuel)
  {
    var pass := JavaPass(base, browse);
    forall v: Walk | v.queue != [] ensures
      |pass(v).walk.popped| == |v.popped| + 1 && (pass(v).stop.Some? ==> IsError(pass(v).stop.value))
    {
      assert pass(v) == Step(v, base, browse);
    }
    LoopEnds(pass, cancel, w, fuel);
    LoopStepLimit(pass, cancel, w, fuel);
  }

  /** The loop reports `BrowseFailed` only right after taking an ID whose browse was interrupted. */
  lemma RunBrowseFailed(base: string, browse: Browser, cancel: nat -> bool, w: Walk, fuel: nat)
    ensures var r := Run(base, browse, cancel, w, fuel);
      r.end == BrowseFailed ==> r.walk.popped != [] && browse(r.walk.popped[|r.walk.popped| - 1]).Interrupted?
  {
    var pass := JavaPass(base, browse);
    var q := (v: Walk) => v.popped != [] && browse(v.popped[|v.popped| - 1]).Interrupted?;
    forall v: Walk | v.queue != [] && pass(v).stop == Some(BrowseFailed) ensures q(pass(v).walk) {
      assert pass(v) == Step(v, base, browse);
    }
    LoopStopsAfter(pass, cancel, BrowseFailed, q, w, fuel);
  }

  /** Proof helper: one more pass of the loop, which goes on from `Step`'s walk unless the pass ended the walk. */
  lemma RunUnfold(base: string, browse: Browser, cancel: nat -> bool, w: Walk, fuel: nat)
    requires w.queue != [] && !cancel(|w.popped|) && fuel > 0
    ensures var pass := Step(w, base, browse);
      Run(base, browse, cancel, w, fuel) ==
        if pass.stop.Some? then Finished(pass.walk, pass.stop.value) else Run(base, browse, cancel, pass.walk, fuel - 1)
  {
    assert JavaPass(base, browse)(w) == Step(w, base, browse);
  }

  /**
   * A two-level catalog: the root holds one container `"1"` and one chunk of
   * XML, `"1"` holds nothing. The walk browses `"0"` then `"1"`, completes,
   * shows `1/2` then `2/2`, and writes the root's chunk as `0.xml`: entries
   * are named after the ID whose browse returned them.
   */
  lemma TwoLevelCatalog(friendlyName: string, browse: Browser, cancel: nat -> bool)
    requires browse("0") == Browsed(Some([CdsObject("1", true)]), [Description(0, 1, "<A/>")])
    requires browse("1") == Browsed(Some([]), [])
    requires !cancel(0) && !cancel(1)
    ensures var base := CdsBase(friendlyName);
      var r := Run(base, browse, cancel, InitialWalk(Archive({}, []), []), 2);
      && r.end == Completed && r.walk.popped == ["0", "1"] && r.walk.progress == ["1/2", "2/2"]
      && r.walk.archive.entries == [ZipEntry(base + "/0.xml", "<A/>")]
  {
    var base := CdsBase(friendlyName);
    var w0 := InitialWalk(Archive({}, []), []);
    RunUnfold(base, browse, cancel, w0, 2);
    RootStep(base, browse);
    var w1 := Step(w0, base, browse).walk;
    RunUnfold(base, browse, cancel, w1, 1);
    ChildStep(base, browse, w1);
  }

  /** The root's pass of `TwoLevelCatalog`. */
  lemma RootStep(base: string, browse: Browser)
    requires browse("0") == Browsed(Some([CdsObject("1", true)]), [Description(0, 1, "<A/>")])
    ensures var pass := Step(InitialWalk(Archive({}, []), []), base, browse);
      && pass.stop == None && pass.walk.queue == ["1"] && pass.walk.count == 2 && pass.walk.popped == ["0"]
      && pass.walk.progress == ["1/2"] && pass.walk.archive.entries == [ZipEntry(base + "/0.xml", "<A/>")]
  {
    var descriptions := [Description(0, 1, "<A/>")];
    var w1 := Discover(Pop(InitialWalk(Archive({}, []), [])), [CdsObject("1", true)]);
    assert ContainerIds([CdsObject("1", true)]) == ["1"];
    assert Decimal(1) == "1" && Decimal(2) == "2";
    assert ProgressText(1, 2) == "1/2";
    assert w1.queue == ["1"] && w1.count == 2 && w1.progress == ["1/2"];
    assert ToFileNameString("0") == "0";
    assert PathBody(base, "0") + DescriptionSuffix(descriptions, 0) == base + "/0.xml";
    assert w1.archive == Archive({}, []);
    assert UniquePath({}, PathBody(base, "0"), DescriptionSuffix(descriptions, 0)) == Some(base + "/0.xml");
    var a := Archive({base + "/0.xml"}, [ZipEntry(base + "/0.xml", "<A/>")]);
    assert w1.archive.reserved + {base + "/0.xml"} == a.reserved;
    assert w1.archive.entries + [ZipEntry(base + "/0.xml", "<A/>")] == a.entries;
    assert WriteEntry(w1.archive, PathBody(base, "0"), DescriptionSuffix(descriptions, 0), "<A/>") == Some(a);
    assert WriteDescriptions(w1.archive, base, "0", descriptions, 0) == WriteDescriptions(a, base, "0", descriptions, 1);
  }

  /** The pass over `"1"` of `TwoLevelCatalog`. */
  lemma ChildStep(base: string, browse: Browser, w: Walk)
    requires browse("1") == Browsed(Some([]), [])
    requires w.queue == ["1"] && w.count == 2 && w.popped == ["0"] && w.progress == ["1/2"]
    ensures var pass := Step(w, base, browse);
      && pass.stop == None && pass.walk.queue == [] && pass.walk.popped == ["0", "1"]
      && pass.walk.progress == ["1/2", "2/2"] && pass.walk.archive == w.archive
  {
    assert ContainerIds([]) == [];
    assert Decimal(2) == "2";
    assert ProgressText(2, 2) == "2/2";
  }

  class MainWindow {
    /** `mZipEntrySet`: the entry names used so far. */
    var zipEntrySet: set<string>
    /** The zip stream: the entries written, in order. */
    var zip: seq<ZipEntry>
    /** The texts set on the status field, in order. */
    var progress: seq<string>

    constructor ()
      ensures zipEntrySet == {} && zip == [] && progress == []
    {
      zipEntrySet := {};
      zip := [];
      progress := [];
    }

    /** `makeUniquePath(body, suffix)`; `None` stands for the `IOException`. */
    method MakeUniquePath(body: string, suffix: string) returns (path: Option<string>)
      modifies this
      ensures path == UniquePath(old(zipEntrySet), body, suffix)
      ensures zipEntrySet == if path.Some? then old(zipEntrySet) + {path.value} else old(zipEntrySet)
      ensures zip == old(zip) && progress == old(progress)
    {
      var p := body + suffix;
      if p !in zipEntrySet {
        zipEntrySet := zipEntrySet + {p};
        return Some(p);
      }
      for i := 0 to MAX_VALUE
        invariant FirstFree(zipEntrySet, body, suffix, i) == UniquePath(zipEntrySet, body, suffix)
        invariant zipEntrySet == old(zipEntrySet)
      {
        p := body + "$$" + Decimal(i) + suffix;
        assert p == Probe(body, i, suffix);
        if p !in zipEntrySet {
          zipEntrySet := zipEntrySet + {p};
          return Some(p);
        }
      }
      return None;
    }

    /** `makePath(base, name)`. */
    method MakePath(base: string, name: string) returns (path: Option<string>)
      modifies this
      ensures path == UniquePath(old(zipEntrySet), PathBody(base, name), ".xml")
      ensures zipEntrySet == if path.Some? then old(zipEntrySet) + {path.value} else old(zipEntrySet)
      ensures zip == old(zip) && progress == old(progress)
    {
      path := MakeUniquePath(base + "/" + ToFileNameString(name), ".xml");
    }

    /** `makePath(base, name, suffix)`. */
    method MakeChunkPath(base: string, name: string, suffix: string) returns (path: Option<string>)
      modifies this
      ensures path == UniquePath(old(zipEntrySet), PathBody(base, name), suffix + ".xml")
      ensures zipEntrySet == if path.Some? then old(zipEntrySet) + {path.value} else old(zipEntrySet)
      ensures zip == old(zip) && progress == old(progress)
    {
      path := MakeUniquePath(base + "/" + ToFileNameString(name), suffix + ".xml");
    }

    /** `writeZipEntry(zos, path, data)`. */
    method WriteZipEntry(path: string, data: string)
      modifies this
      ensures zip == old(zip) + [ZipEntry(path, data)]
      ensures zipEntrySet == old(zipEntrySet) && progress == old(progress)
    {
      zip := zip + [ZipEntry(path, data)];
    }

    /** The entry name of the `k`-th description: the `makePath` call in the `for` loop of `dumpAllDir`. */
    method DescriptionPath(base: string, id: string, descriptions: seq<Description>, k: nat) returns (path: Option<string>)
      requires k < |descriptions|
      modifies this
      ensures path == UniquePath(old(zipEntrySet), PathBody(base, id), DescriptionSuffix(descriptions, k))
      ensures zipEntrySet == if path.Some? then old(zipEntrySet) + {path.value} else old(zipEntrySet)
      ensures zip == old(zip) && progress == old(progress)
    {
      var description := descriptions[k];
      var start := description.start;
      var end := Wrap(description.number + start - 1);
      if |descriptions| == 1 {
        assert DescriptionSuffix(descriptions, k) == ".xml";
        path := MakePath(base, id);
      } else {
        path := MakeChunkPath(base, id, RangeSuffix(start, end));
      }
      assert path == UniquePath(old(zipEntrySet), PathBody(base, id), DescriptionSuffix(descriptions, k));
    }

    /** The `for` loop over `descriptions` in `dumpAllDir`; `false` when a `makePath` threw. */
    method WriteAll(base: string, id: string, descriptions: seq<Description>) returns (ok: bool)
      modifies this
      ensures Written(Archive(zipEntrySet, zip), ok) ==
              WriteDescriptions(Archive(old(zipEntrySet), old(zip)), base, id, descriptions, 0)
      ensures progress == old(progress)
    {
      for k := 0 to |descriptions|
        invariant WriteDescriptions(Archive(zipEntrySet, zip), base, id, descriptions, k) ==
                  WriteDescriptions(Archive(old(zipEntrySet), old(zip)), base, id, descriptions, 0)
        invariant progress == old(progress)
      {
        WriteDescriptionsStep(Archive(zipEntrySet, zip), base, id, descriptions, k);
        var path := DescriptionPath(base, id, descriptions, k);
        if path.None? {
          return false;
        }
        WriteZipEntry(path.value, descriptions[k].xml);
      }
      return true;
    }

    /**
     * The part of the `while` body of `dumpAllDir` after a successful browse
     * of `id`: the containers among `objects` queued, the progress text set,
     * the descriptions written. `w` is the walk after `id` was taken.
     */
    method Record(base: string, id: string, ghost w: Walk, idList: seq<string>, count: int,
                  objects: seq<CdsObject>, descriptions: seq<Description>)
      returns (idList': seq<string>, count': int, ok: bool)
      requires w.queue == idList && w.count == count && w.archive == Archive(zipEntrySet, zip) && w.progress == progress
      modifies this
      ensures var w2 := Discover(w, objects);
        idList' == w2.queue && count' == w2.count && progress == w2.progress &&
        Written(Archive(zipEntrySet, zip), ok) == WriteDescriptions(w2.archive, base, id, descriptions, 0)
    {
      idList', count' := EnqueueContainers(idList, count, objects);
      ghost var w2 := Discover(w, objects);
      assert w2.queue == idList' && w2.count == count' && w2.archive == Archive(zipEntrySet, zip);
      progress := progress + [ProgressText(count' - |idList'|, count')];
      assert progress == w2.progress;
      ok := WriteAll(base, id, descriptions);
    }

    /**
     * One pass of the `while` body of `dumpAllDir`, from the state `w` whose
     * queue is `idList` and whose counter is `count`: what it leaves is `Step`'s
     * walk, and `stop` is how the walk ends, `None` when it goes on.
     */
    method Visit(base: string, browse: Browser, ghost w: Walk, idList: seq<string>, count: int)
      returns (idList': seq<string>, count': int, stop: Option<WalkEnd>)
      requires idList != []
      requires w.queue == idList && w.count == count && w.archive == Archive(zipEntrySet, zip) && w.progress == progress
      modifies this
      ensures var pass := Step(w, base, browse);
        stop == pass.stop && idList' == pass.walk.queue && count' == pass.walk.count &&
        Archive(zipEntrySet, zip) == pass.walk.archive && progress == pass.walk.progress
    {
      var id := idList[0];
      idList', count' := idList[1..], count;
      var result := browse(id);
      if result.Interrupted? {
        return idList', count', Some(BrowseFailed);
      }
      if result.objects.None? {
        return idList', count', None;
      }
      var ok;
      idList', count', ok := Record(base, id, Pop(w), idList', count', result.objects.value, result.descriptions);
      stop := if ok then None else Some(PathsExhausted);
    }

    /**
     * `dumpAllDir(zos, server)` browsing at most `limit` IDs. The new names,
     * entries and status texts are those of the walk `Run` from the root.
     */
    method DumpAllDir(friendlyName: string, browse: Browser, cancel: nat -> bool, limit: nat) returns (end: WalkEnd)
      modifies this
      ensures var r := Run(CdsBase(friendlyName), browse, cancel,
                           InitialWalk(Archive(old(zipEntrySet), old(zip)), old(progress)), limit);
        end == r.end && Archive(zipEntrySet, zip) == r.walk.archive && progress == r.walk.progress
    {
      var base := ToFileNameString(friendlyName) + "/cds";
      var idList: seq<string> := [];
      var count := 1;
      idList := ["0"] + idList;
      var steps: nat := 0;
      ghost var w := InitialWalk(Archive(zipEntrySet, zip), progress);
      ghost var fuel := limit;
      ghost var target := Run(base, browse, cancel, w, fuel);
      assert base == CdsBase(friendlyName);
      while |idList| > 0 && !cancel(steps)
        invariant steps == |w.popped| && steps + fuel == limit
        invariant w.queue == idList && w.count == count && w.archive == Archive(zipEntrySet, zip) && w.progress == progress
        invariant Run(base, browse, cancel, w, fuel) == target
        decreases fuel
      {
        if steps == limit {
          return StepLimit;
        }
        ghost var pass := Step(w, base, browse);
        RunUnfold(base, browse, cancel, w, fuel);
        var stop;
        idList, count, stop := Visit(base, browse, w, idList, count);
        w, fuel := pass.walk, fuel - 1;
        steps := steps + 1;
        if stop.Some? {
          assert target == Finished(w, stop.value);
          return stop.value;
        }
      }
      end := if |idList| == 0 then Completed else Cancelled;
    }
  }
}
