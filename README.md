# cds-extractor in Dafny

A model of the core of cds-extractor, a desktop tool that walks the catalog of
a UPnP media server (its ContentDirectory service) and saves the raw XML of
every Browse result into a zip archive. Six parts are modelled.

- **`TagMap` and `Tag`.** These hold the flattened XML of one catalog entry:
  each tag name maps to the list of its occurrences, in document order. They
  answer keys such as `name`, `name@attr` and `@attr`, with an occurrence
  index. The Java `Tag` is a class with final fields. The Kotlin `Tag` is a
  plain class with read-only properties.
- **`CdsObjectFactory`.** It walks the element children of a Browse result's
  document element, keeps the entries that construct, in document order, and
  skips the rest.
- **The paging loop of `MediaServer.browse`.** It asks for at most 10 entries
  per Browse, follows the paging rules of the Browse action of the UPnP
  ContentDirectory:1 service (section 2.7.4 of its service template), and
  stops at TotalMatches or at the request limit.
- **The archive names.** This part covers `toFileNameString`, both `makePath`
  overloads and `makeUniquePath`, which probes `body$$0suffix`,
  `body$$1suffix`, … over the set of names used so far.
- **Both versions of `MainWindow.dumpAllDir`.** Each is a breadth-first walk
  from the root `"0"` with a FIFO queue, a `count` of IDs known, a progress
  text and a cancel flag. Entries are named after the browsed ID: by the ID
  alone, or with a `(start-end)` range.
- **`TextParseUtils.parseIntSafely`.** It follows `Integer.parseInt`, with a
  default value.

Module by module:

- `TextParseUtils` (text_parse_utils.dfy) models `Integer.parseInt` and the
  decimal text of an `int`. `JavaInt` holds 32-bit wrap-around.
- `Xml` is an element, its attribute nodes, and a `LinkedHashMap<String,
  String>` as an ordered list of pairs.
- `CdsTag` is the Java `Tag`: a class with `const` fields. `Tag` does not
  override `equals`, so identity matters, as for a Dafny class.
- `CdsTagKt` is the Kotlin `Tag`, a datatype. Nothing in the core compares
  Kotlin tags or updates them, so their identity never matters.
- `CdsTagMap` is the `TagMap` class. Its fields are the key order and the
  occurrence lists. `putTag` and `toString` are methods. The lookups are
  functions that read the fields.
- `CdsTypes` holds `Description`, the immutable `(start, number, xml)` record,
  as a datatype whose getters are its field selectors. It also holds what the
  core reads of a `CdsObject`.
- `CdsObjectFactory` holds the two sibling walks as methods with loops, each
  proved equal to a function. The XML parser and the `CdsObject` constructor
  are parameters.
- `MediaServer` holds the `browse` loop as a method, proved equal to the
  function `BrowseSpec`. The loop computes the next index without 32-bit
  wrap-around; see "## Findings". The Browse invocation, the parse of its
  result and the subscriber's disposal are parameters.
- `ArchivePaths` holds the naming functions shared by both versions.
  `ExtractorWalk` holds the walk state shared by both: the queue, `count`, the
  archive (the set of names used and the log of entries written) and the
  progress texts. It also holds the generic loop `Loop` and its lemmas.
- `MainWindowJava` and `MainWindowKt` are each a class `MainWindow`. Its fields
  are the set of names used, the zip log and the progress log. Its methods are
  the naming helpers and `DumpAllDir`. Each `DumpAllDir` is proved equal to the
  function `Run` of its module, and the walk's properties are proved about
  `Run`.

Two details of the walk:

- Every entry is named after the ID whose browse returned it, so in a
  two-level catalog the root's chunk is `<name>/cds/0.xml`
  (`MainWindowJava.TwoLevelCatalog`).
- The Kotlin loop reads the cancel flag before it looks at the queue; the Java
  loop does the opposite. Both leave the same archive and progress texts,
  because an empty queue and a set flag both end the loop with nothing more
  done. The shared `Loop` checks the queue first.

## Model

| member | source | states |
|---|---|---|
| TextParseUtils.ParseIntSafely | src/main/java/net/mm2d/android/upnp/TextParseUtils.java:4-12 | null, a text that is not an optionally signed run of ASCII digits, or a value outside the 32-bit range gives the default; any other text gives its value |
| TextParseUtils.EmptyOrLoneSignIsDefault | src/main/java/net/mm2d/android/upnp/TextParseUtils.java:7-11 | the empty text and a lone `+` or `-` give the default |
| TextParseUtils.NonDigitIsDefault | src/main/java/net/mm2d/android/upnp/TextParseUtils.java:7-11 | a text with a non-digit anywhere but a leading sign gives the default |
| TextParseUtils.DecimalRoundTrip | src/main/java/net/mm2d/android/upnp/TextParseUtils.java:4-12 | parsing the decimal text of any 32-bit `int` gives that `int` back, whatever the default |
| TextParseUtils.DecimalInjective | src/main/java/net/mm2d/android/upnp/TextParseUtils.java:8 | two numbers with the same decimal text are equal |
| Xml.Put | src/main/java/net/mm2d/android/upnp/cds/Tag.java:82 | `LinkedHashMap.put`: the key now maps to the value, other keys are unchanged, an existing key keeps its place and a new one goes last |
| Xml.FromPairs | src/main/java/net/mm2d/android/upnp/cds/Tag.java:79-83 | the map built from the attribute nodes has distinct names and maps each name to its last value |
| Xml.FromDistinctPairs | src/main/java/net/mm2d/android/upnp/cds/Tag.java:79-83 | with distinct attribute names, the map holds exactly the attributes, in document order |
| CdsTag.Tag.constructor | src/main/java/net/mm2d/android/upnp/cds/Tag.java:48-84 | the name is the element's tag name; the value is `""` for a root tag and the text content otherwise; the attributes are those of the element |
| CdsTag.Tag.BuildAttributes | src/main/java/net/mm2d/android/upnp/cds/Tag.java:73-83 | the constructor's loop builds the map of the element's attributes |
| CdsTag.Tag.GetAttribute | src/main/java/net/mm2d/android/upnp/cds/Tag.java:112-115 | the stored value exactly when the name is present, null otherwise |
| CdsTag.Tag.GetAttributes | src/main/java/net/mm2d/android/upnp/cds/Tag.java:122-128 | the empty map when there are no attributes, otherwise the same entries in the same (insertion) order |
| CdsTag.TagText | src/main/java/net/mm2d/android/upnp/cds/Tag.java:131-142 | the text begins with the value |
| CdsTag.Tag.ToString | src/main/java/net/mm2d/android/upnp/cds/Tag.java:131-142 | the value, then `\n@name => value` per attribute, in map order |
| CdsTagKt.Tag.GetAttribute | src/main/java/net/mm2d/android/upnp/cds/Tag.kt:35 | `attributes[name]`: present exactly when the name is |
| CdsTagKt.Tag.ToString | src/main/java/net/mm2d/android/upnp/cds/Tag.kt:37-44 | the `forEach` fold gives the same text as the Java `Tag.toString` |
| CdsTagKt.FoldIsTagText | src/main/java/net/mm2d/android/upnp/cds/Tag.kt:40-42 | folding the remaining attributes onto the text of the first ones gives the text of all of them |
| CdsTagKt.EmptyIsBlank | src/main/java/net/mm2d/android/upnp/cds/Tag.kt:47 | `Tag.EMPTY` has the empty name and value, prints as the empty text and has no attribute |
| CdsTagKt.Create | src/main/java/net/mm2d/android/upnp/cds/Tag.kt:56-69 | the tag name is copied; the value is `""` when `root`, else the text content (`root` defaults to false); each attribute name maps to its last value; names are distinct |
| CdsTagMap.IndexOf | src/main/java/net/mm2d/android/upnp/cds/TagMap.java:97 | `indexOf('@')`: -1 exactly when there is no `@`, otherwise the position of an `@` with none before it |
| CdsTagMap.IndexOfFirst | src/main/java/net/mm2d/android/upnp/cds/TagMap.java:97 | the first `@` is the one `indexOf` finds |
| CdsTagMap.TagMap.constructor | src/main/java/net/mm2d/android/upnp/cds/TagMap.java:41-43 | a new map has no names |
| CdsTagMap.TagMap.PutTag | src/main/java/net/mm2d/android/upnp/cds/TagMap.java:51-53 | the tag goes at the end of the name's list, which is created if absent and then placed last in key order; every other name's list is unchanged |
| CdsTagMap.TagMap.GetTagList | src/main/java/net/mm2d/android/upnp/cds/TagMap.java:181-186 | the list stored for the name, a null name meaning `""`; null when absent |
| CdsTagMap.TagMap.GetTagAt | src/main/java/net/mm2d/android/upnp/cds/TagMap.java:166-172 | the `index`-th occurrence exactly when the index is below the list's size; null for an absent name or a larger index |
| CdsTagMap.TagMap.GetTag | src/main/java/net/mm2d/android/upnp/cds/TagMap.java:154-156 | the first occurrence, present exactly when the name is |
| CdsTagMap.TagMap.GetTagValueAt | src/main/java/net/mm2d/android/upnp/cds/TagMap.java:134-143 | read from the `index`-th occurrence only: its value when the attribute name is null or empty, else its attribute; null past the end |
| CdsTagMap.TagMap.GetTagValue | src/main/java/net/mm2d/android/upnp/cds/TagMap.java:118-120 | the same lookup at index 0 |
| CdsTagMap.TagMap.GetValueAt | src/main/java/net/mm2d/android/upnp/cds/TagMap.java:96-104 | the key is split at its first `@` into tag name and attribute name; without `@` it is a tag name whose value is read |
| CdsTagMap.TagMap.GetValue | src/main/java/net/mm2d/android/upnp/cds/TagMap.java:71-73 | the same lookup at index 0; without `@`, present exactly when the tag is, with the first occurrence's value |
| CdsTagMap.TagMap.Equals | src/main/java/net/mm2d/android/upnp/cds/TagMap.java:225-234 | false for null; otherwise true exactly when both have the same names with identical occurrence lists, whatever the key order |
| CdsTagMap.TagMap.ToString | src/main/java/net/mm2d/android/upnp/cds/TagMap.java:190-217 | the `StringBuilder` loops produce `MapText`: each name in insertion order, each occurrence as `name => value` (or `name[i] => value` when there are several), then its attribute lines |
| CdsTagMap.AppendEntry | src/main/java/net/mm2d/android/upnp/cds/TagMap.java:194-214 | the outer loop body appends the text of every occurrence of one name, in order |
| CdsTagMap.AppendOccurrence | src/main/java/net/mm2d/android/upnp/cds/TagMap.java:195-213 | the inner loop body appends one occurrence's line and then its `      @k => v` lines |
| CdsTagMap.NewNameComesLast | src/main/java/net/mm2d/android/upnp/cds/TagMap.java:190-217 | a newly put name's text comes after that of every earlier name |
| CdsTagMap.AttributeNoFallback | src/main/java/net/mm2d/android/upnp/cds/TagMap.java:134-143 | `name@attr` at index `i` is null when occurrence `i` lacks the attribute, even though occurrence `j` has it, and index `j` gives occurrence `j`'s value |
| CdsTagMap.EmptyAttributeReadsValue | src/main/java/net/mm2d/android/upnp/cds/TagMap.java:139-141 | `name@` reads the same as `name` |
| CdsTagMap.RootAttribute | src/main/java/net/mm2d/android/upnp/cds/TagMap.java:96-104 | `@attr` reads the attribute of the root tag, stored under `""` |
| CdsObjectFactory.Elements | src/main/java/net/mm2d/android/upnp/cds/CdsObjectFactory.java:55-58 | the element children are no more than the child nodes |
| CdsObjectFactory.CreateCdsObject | src/main/java/net/mm2d/android/upnp/cds/CdsObjectFactory.java:107-116 | no contract of its own: the `CdsObject` constructor, with `None` for the caught `IllegalArgumentException`; `FailingElementSkipped` states what a failure does |
| CdsObjectFactory.Successes | src/main/java/net/mm2d/android/upnp/cds/CdsObjectFactory.java:59-62 | at most one object per element, each the successful construction of one of them |
| CdsObjectFactory.DirectChildren | src/main/java/net/mm2d/android/upnp/cds/CdsObjectFactory.java:45-68 | empty for null or empty XML and on a parser failure |
| CdsObjectFactory.Metadata | src/main/java/net/mm2d/android/upnp/cds/CdsObjectFactory.java:78-97 | null for null or empty XML and on a parser failure |
| CdsObjectFactory.ParseDirectChildren | src/main/java/net/mm2d/android/upnp/cds/CdsObjectFactory.java:45-68 | the sibling walk returns the successful constructions of the element children, in document order |
| CdsObjectFactory.ParseMetadata | src/main/java/net/mm2d/android/upnp/cds/CdsObjectFactory.java:78-97 | the sibling walk returns the construction of the first element child, or null when there is none |
| CdsObjectFactory.ElementsOfConcat | src/main/java/net/mm2d/android/upnp/cds/CdsObjectFactory.java:55-58 | element filtering keeps document order across any split of the children |
| CdsObjectFactory.SuccessesOfConcat | src/main/java/net/mm2d/android/upnp/cds/CdsObjectFactory.java:59-62 | construction keeps document order across any split of the elements |
| CdsObjectFactory.FailingElementSkipped | src/main/java/net/mm2d/android/upnp/cds/CdsObjectFactory.java:107-116 | an element whose construction fails is dropped and the elements after it are still processed |
| CdsObjectFactory.OtherNodesSkipped | src/main/java/net/mm2d/android/upnp/cds/CdsObjectFactory.java:56-58 | a non-element child node changes nothing in the result |
| CdsObjectFactory.DirectChildrenBound | src/main/java/net/mm2d/android/upnp/cds/CdsObjectFactory.java:54-63 | no more objects than element children, each the construction of one of them |
| CdsObjectFactory.MetadataFirstElementOnly | src/main/java/net/mm2d/android/upnp/cds/CdsObjectFactory.java:87-92 | only the first element child is tried; when it fails the result is null, whatever follows |
| CdsObjectFactory.MetadataIsFirstChild | src/main/java/net/mm2d/android/upnp/cds/CdsObjectFactory.java:84-92 | when `parseMetadata` finds an object, `parseDirectChildren` on the same XML returns it first |
| MediaServer.RequestLimit | src/main/java/net/mm2d/android/upnp/cds/MediaServer.kt:76 | the limit is never 0: a `requestedCount` of 0 means `Integer.MAX_VALUE`, any other is kept |
| MediaServer.RequestCount | src/main/java/net/mm2d/android/upnp/cds/MediaServer.kt:81 | never more than `REQUEST_MAX` (10); `min(request - start, 10)` whenever `0 <= start <= request` |
| MediaServer.BrowseFrom | src/main/java/net/mm2d/android/upnp/cds/MediaServer.kt:78-108 | the corrected loop from its head: the pages already delivered are kept, and the run ends `Disposed` exactly when the subscriber disposed after its last page |
| MediaServer.BrowseSpec | src/main/java/net/mm2d/android/upnp/cds/MediaServer.kt:64-110 | `browse` as its subscriber sees it: `Disposed` exactly when disposed after the last page, and nothing at all when disposed before the first |
| MediaServer.Browse | src/main/java/net/mm2d/android/upnp/cds/MediaServer.kt:76-109 | the corrected loop (next index without wrap-around) delivers the pages and ends as `BrowseSpec` says: an invoke failure, a negative count, an empty parse or a missing Result fails; NumberReturned or TotalMatches 0 completes; the loop stops once the next index reaches TotalMatches or the limit (0 meaning `Integer.MAX_VALUE`) |
| MediaServer.BrowseFromChained | src/main/java/net/mm2d/android/upnp/cds/MediaServer.kt:94-106 | the pages already delivered are kept, the new ones are chained from the current index, and there are at most `request - start` of them |
| MediaServer.BrowsePagesChained | src/main/java/net/mm2d/android/upnp/cds/MediaServer.kt:94-106 | every page is non-empty with positive counts; the first begins at `startingIndex`, each later one where the one before ended, and only the last may reach TotalMatches |
| MediaServer.BrowseStartsIncrease | src/main/java/net/mm2d/android/upnp/cds/MediaServer.kt:97-103 | starting indexes strictly increase from page to page |
| MediaServer.BrowseBounded | src/main/java/net/mm2d/android/upnp/cds/MediaServer.kt:79-107 | the loop terminates: no more pages than `request - startingIndex` (one when that is not positive) |
| MediaServer.FirstResponseRules | src/main/java/net/mm2d/android/upnp/cds/MediaServer.kt:82-93 | the first response alone decides an empty run: a failure or an error, or a completion on a zero count |
| MediaServer.BrowseHeadRules | src/main/java/net/mm2d/android/upnp/cds/MediaServer.kt:79-102 | at any request, not only the first: disposal ends the run as it stands; an invoke failure fails; a zero NumberReturned or TotalMatches completes; an empty parse, a negative count or a missing Result fails; otherwise the next page delivered is exactly the parsed response, at this index, with its counts and Result |
| MediaServer.BrowseFromFirstPage | src/main/java/net/mm2d/android/upnp/cds/MediaServer.kt:79-106 | the first page the loop delivers from its head starts at the current index and obeys `ResumesAt`: it answers its request and the loop goes on from there as the source does |
| MediaServer.BrowseFromResumes | src/main/java/net/mm2d/android/upnp/cds/MediaServer.kt:78-108 | every page delivered from any head obeys `ResumesAt`: it was not disposed before, it is the response to the request at its index for `min(request - start, REQUEST_MAX)` objects (its list being the parse of that response's Result), and either the next index reached TotalMatches or the limit and the run ends there, `Disposed` exactly when disposed after it, or the next index is below both and the loop requests again from it |
| MediaServer.BrowseResumes | src/main/java/net/mm2d/android/upnp/cds/MediaServer.kt:76-108 | the same for every page of `browse`, against the limit derived from `requestedCount` |
| MediaServer.DisposedAfter | src/main/java/net/mm2d/android/upnp/cds/MediaServer.kt:79 | a subscriber that disposes during page `k` receives exactly the first `k` pages of the undisposed run |
| MediaServer.StartWrapsAsWritten | src/main/java/net/mm2d/android/upnp/cds/MediaServer.kt:103-106 | with `start += number` in 32-bit `Int`, an over-long NumberReturned wraps the index below its old value and the loop goes on |
| ArchivePaths.ToFileNameString | src/main/java/net/mm2d/cdsextractor/MainWindow.java:284-286 | the sanitised name has the same length |
| ArchivePaths.ToFileNameStringReplaces | src/main/java/net/mm2d/cdsextractor/MainWindow.java:284-286 | each of `\ / : * ? " < > \|` becomes `_`, every other character is unchanged |
| ArchivePaths.ToFileNameStringIdempotent | src/main/java/net/mm2d/cdsextractor/MainWindow.kt:222-224 | the result holds no unsafe character, and sanitising twice is sanitising once |
| ArchivePaths.FirstFree | src/main/java/net/mm2d/cdsextractor/MainWindow.java:265-272 | a returned alternative was not reserved |
| ArchivePaths.FirstFreeIsFirst | src/main/java/net/mm2d/cdsextractor/MainWindow.java:265-272 | the probe returns the alternative with the smallest free index, every earlier one being reserved, and throws only when all of them are |
| ArchivePaths.UniquePath | src/main/java/net/mm2d/cdsextractor/MainWindow.java:257-273 | a returned path was not reserved |
| ArchivePaths.UniquePathIsFirstFree | src/main/java/net/mm2d/cdsextractor/MainWindow.java:260-271 | `body + suffix` when it is free, else `body$$i suffix` for the smallest free `i` |
| ArchivePaths.UniquePathNone | src/main/java/net/mm2d/cdsextractor/MainWindow.java:265-272 | the `IOException` is thrown only when the default path and every alternative are reserved |
| ArchivePaths.UniquePathExists | src/main/java/net/mm2d/cdsextractor/MainWindow.java:265-272 | with at most `Integer.MAX_VALUE` names reserved, a path is always found |
| ArchivePaths.UniquePathPrefix | src/main/java/net/mm2d/cdsextractor/MainWindow.java:260-270 | the returned path begins with `body` |
| ArchivePaths.ProbeInjective | src/main/java/net/mm2d/cdsextractor/MainWindow.java:266 | distinct indexes give distinct alternatives |
| ArchivePaths.ProbeIsNotDefault | src/main/java/net/mm2d/cdsextractor/MainWindow.java:260-266 | no alternative equals the default path |
| ArchivePaths.ProgressTextReadsBack | src/main/java/net/mm2d/cdsextractor/MainWindow.java:309 | the progress text reads back as its two numbers around the one `/` |
| ExtractorWalk.ContainerIds | src/main/java/net/mm2d/cdsextractor/MainWindow.java:303-308 | no more IDs than objects |
| ExtractorWalk.ContainerIdsAreContainers | src/main/java/net/mm2d/cdsextractor/MainWindow.java:303-308 | every ID queued is the ID of a container among the objects |
| ExtractorWalk.EnqueueContainers | src/main/java/net/mm2d/cdsextractor/MainWindow.java:303-308 | the loop appends the containers' IDs to the back of the queue, in order, and adds their number to `count` |
| ExtractorWalk.WriteEntry | src/main/java/net/mm2d/cdsextractor/MainWindow.java:315 | the write fails exactly when `makeUniquePath` throws |
| ExtractorWalk.WriteEntryFresh | src/main/java/net/mm2d/cdsextractor/MainWindow.java:261-270 | a write adds one entry under a name that was free and reserves exactly that name, so names stay unique |
| ExtractorWalk.DiscoverKeepsFifo | src/main/java/net/mm2d/cdsextractor/MainWindow.java:303-309 | after queuing the containers, `count` is the IDs taken plus the queue size, and the progress text is the IDs taken over `count` |
| ExtractorWalk.PopKeepsFifo | src/main/java/net/mm2d/cdsextractor/MainWindow.java:297 | `pollFirst` keeps the bookkeeping |
| ExtractorWalk.Loop | src/main/java/net/mm2d/cdsextractor/MainWindow.java:296-320 | no contract of its own: the `while` loop over any pass, returning on an empty queue, a set flag, an ending pass or the step bound; `LoopKeeps`, `LoopEnds`, `LoopStepLimit`, `LoopTakes` and `LoopStopsAfter` state its properties |
| ExtractorWalk.LoopKeeps | src/main/java/net/mm2d/cdsextractor/MainWindow.java:296-320 | what every pass keeps holds when the loop returns |
| ExtractorWalk.LoopEnds | src/main/java/net/mm2d/cdsextractor/MainWindow.java:296 | the loop completes only with the queue empty, and is cancelled only with the flag set and IDs left |
| ExtractorWalk.LoopStepLimit | src/main/java/net/mm2d/cdsextractor/MainWindow.java:296-297 | the step bound is reached only after exactly that many IDs |
| ExtractorWalk.LoopTakes | src/main/java/net/mm2d/cdsextractor/MainWindow.java:297 | IDs are taken only from the front of the queue, one per pass |
| ExtractorWalk.LoopStopsAfter | src/main/java/net/mm2d/cdsextractor/MainWindow.java:321-323 | an error ends the loop in the state the failing pass left |
| MainWindowJava.DescriptionSuffix | src/main/java/net/mm2d/cdsextractor/MainWindow.java:312-318 | no contract of its own: `.xml` for a lone description, else `(start-end).xml` with a wrapped `end = number + start - 1` |
| MainWindowJava.DescriptionSuffixNaming | src/main/java/net/mm2d/cdsextractor/MainWindow.java:314-318 | a description is named by the ID alone exactly when it is the only one; every name ends in `.xml` |
| MainWindowJava.WriteDescriptions | src/main/java/net/mm2d/cdsextractor/MainWindow.java:310-319 | no contract of its own: the `for` loop's writes until a `makePath` throws; `WriteDescriptionsFresh` states what it writes |
| MainWindowJava.WriteEntryKeeps | src/main/java/net/mm2d/cdsextractor/MainWindow.java:315-317 | writing one more description keeps names unique and adds its XML as the next entry |
| MainWindowJava.WriteDescriptionsKeeps | src/main/java/net/mm2d/cdsextractor/MainWindow.java:311-319 | what every write keeps holds when the `for` loop ends, at the description where it stopped |
| MainWindowJava.WriteDescriptionsFresh | src/main/java/net/mm2d/cdsextractor/MainWindow.java:311-319 | the descriptions go in order, one entry each, under fresh names in the ID's directory, until a `makePath` throws |
| MainWindowJava.Step | src/main/java/net/mm2d/cdsextractor/MainWindow.java:297-319 | a pass takes the first ID and appends the containers of its browse, in order, to the queue and to `found`; a null object list takes the ID and changes nothing else; it ends the walk with `BrowseFailed` exactly when that ID's browse was interrupted, and otherwise only when a `makePath` threw |
| MainWindowJava.StepKeepsFifo | src/main/java/net/mm2d/cdsextractor/MainWindow.java:297-309 | a pass keeps the FIFO bookkeeping |
| MainWindowJava.StepKeepsArchive | src/main/java/net/mm2d/cdsextractor/MainWindow.java:310-319 | a pass writes fresh, distinct names under `<name>/cds/` |
| MainWindowJava.StepFinds | src/main/java/net/mm2d/cdsextractor/MainWindow.java:297-308 | after a pass, the containers found since a given point are still those the browses of the IDs taken since then returned, in the order taken |
| MainWindowJava.RunKeepsFifo | src/main/java/net/mm2d/cdsextractor/MainWindow.java:293-309 | the IDs browsed, then the queue, are the root followed by every container found, in order, and `count` is one more than the number found; the walk is breadth-first: the containers found during the loop are exactly those returned by the browses of the IDs it took, in the order taken |
| MainWindowJava.RunTakes | src/main/java/net/mm2d/cdsextractor/MainWindow.java:296-297 | IDs are taken from the front only, at most the bound |
| MainWindowJava.RunKeepsArchive | src/main/java/net/mm2d/cdsextractor/MainWindow.java:292-319 | the walk never reuses a name and writes only under `<name>/cds/` |
| MainWindowJava.RunEnds | src/main/java/net/mm2d/cdsextractor/MainWindow.java:296-302 | the walk completes only with the queue empty and is cancelled only with the flag set at a loop head |
| MainWindowJava.RunBrowseFailed | src/main/java/net/mm2d/cdsextractor/MainWindow.java:321-323 | the walk ends on a browse error only right after taking an ID whose browse was interrupted |
| MainWindowJava.TwoLevelCatalog | src/main/java/net/mm2d/cdsextractor/MainWindow.java:288-324 | a root holding one container and one chunk completes after two browses, shows `1/2` then `2/2`, and writes the one entry `<name>/cds/0.xml` |
| MainWindowJava.RootStep | src/main/java/net/mm2d/cdsextractor/MainWindow.java:297-319 | the root's pass of that walk |
| MainWindowJava.ChildStep | src/main/java/net/mm2d/cdsextractor/MainWindow.java:297-309 | the second pass of that walk |
| MainWindowJava.MainWindow.MakeUniquePath | src/main/java/net/mm2d/cdsextractor/MainWindow.java:257-273 | returns `UniquePath` of the names used before, and adds exactly that name |
| MainWindowJava.MainWindow.MakePath | src/main/java/net/mm2d/cdsextractor/MainWindow.java:242-246 | `makeUniquePath(base + "/" + sanitised name, ".xml")` |
| MainWindowJava.MainWindow.MakeChunkPath | src/main/java/net/mm2d/cdsextractor/MainWindow.java:249-254 | `makeUniquePath(base + "/" + sanitised name, suffix + ".xml")` |
| MainWindowJava.MainWindow.WriteZipEntry | src/main/java/net/mm2d/cdsextractor/MainWindow.java:275-282 | appends one `(path, data)` entry |
| MainWindowJava.MainWindow.DescriptionPath | src/main/java/net/mm2d/cdsextractor/MainWindow.java:312-318 | a lone description is named by the ID alone, one of several by `(start-end)` with `end = number + start - 1` |
| MainWindowJava.MainWindow.WriteAll | src/main/java/net/mm2d/cdsextractor/MainWindow.java:311-319 | the `for` loop writes what `WriteDescriptions` says |
| MainWindowJava.MainWindow.Record | src/main/java/net/mm2d/cdsextractor/MainWindow.java:303-319 | the containers queued, the progress text set, then the descriptions written |
| MainWindowJava.MainWindow.Visit | src/main/java/net/mm2d/cdsextractor/MainWindow.java:297-319 | one pass of the `while` body is `Step` |
| MainWindowJava.MainWindow.DumpAllDir | src/main/java/net/mm2d/cdsextractor/MainWindow.java:288-324 | the names, entries and progress texts are those of `Run` from the root, and so is how the walk ends |
| MainWindowKt.PageSuffix | src/main/java/net/mm2d/cdsextractor/MainWindow.kt:246-252 | no contract of its own: `.xml` for a page at 0 holding every match, else `(start-end).xml` with a wrapped `end = start + number - 1` |
| MainWindowKt.PageSuffixNaming | src/main/java/net/mm2d/cdsextractor/MainWindow.kt:248-252 | a page is named by the ID alone exactly when it starts at 0 and holds every match; every name ends in `.xml` |
| MainWindowKt.HandlePage | src/main/java/net/mm2d/cdsextractor/MainWindow.kt:238-252 | `onNext` takes no ID, appends the page's containers to the queue and to `found`, and writes exactly one entry unless `makePath` threw, which is the only way it ends the subscription |
| MainWindowKt.HandlePageKeepsFifo | src/main/java/net/mm2d/cdsextractor/MainWindow.kt:238-245 | a page appends its containers to the queue, keeps the bookkeeping and shows the IDs taken over `count` |
| MainWindowKt.WritePageKeeps | src/main/java/net/mm2d/cdsextractor/MainWindow.kt:246-252 | writing a page adds its XML as the next entry under a fresh name |
| MainWindowKt.DeliverKeeps | src/main/java/net/mm2d/cdsextractor/MainWindow.kt:236-253 | what every `onNext` keeps holds when the subscription ends, at the page that threw |
| MainWindowKt.SubscriptionKeepsFifo | src/main/java/net/mm2d/cdsextractor/MainWindow.kt:236-245 | a subscription keeps the bookkeeping and takes no ID |
| MainWindowKt.SubscriptionWrites | src/main/java/net/mm2d/cdsextractor/MainWindow.kt:236-253 | one entry per page before the one whose `makePath` threw, in order, holding the page's XML under a fresh name in the ID's directory |
| MainWindowKt.PagesDelivered | src/main/java/net/mm2d/cdsextractor/MainWindow.kt:236-253 | the stream disposed by the throwing `onNext` delivers exactly the pages handled and nothing after them |
| MainWindowKt.KtStep | src/main/java/net/mm2d/cdsextractor/MainWindow.kt:235-253 | `pollFirst` takes the first ID; the subscription takes no other |
| MainWindowKt.KtStepKeepsFifo | src/main/java/net/mm2d/cdsextractor/MainWindow.kt:235-245 | a pass takes the first ID and keeps the bookkeeping |
| MainWindowKt.DeliverFinds | src/main/java/net/mm2d/cdsextractor/MainWindow.kt:236-253 | when every `onNext` appends its page's containers, the subscription appends those of the pages from the current one up to and including the one whose `onNext` threw (or all of them), page after page |
| MainWindowKt.SubscriptionFinds | src/main/java/net/mm2d/cdsextractor/MainWindow.kt:236-245 | the subscription of one ID appends to the queue and to `found` the containers on the pages that reach `onNext`, in order |
| MainWindowKt.KtStepFinds | src/main/java/net/mm2d/cdsextractor/MainWindow.kt:235-253 | a pass appends to the back of the queue, and to `found`, the containers on the pages of the taken ID's browse that reach `onNext`, page after page |
| MainWindowKt.KtStepKeepsArchive | src/main/java/net/mm2d/cdsextractor/MainWindow.kt:246-252 | a pass writes fresh, distinct names under `<name>/cds/` |
| MainWindowKt.RunKeepsFifo | src/main/java/net/mm2d/cdsextractor/MainWindow.kt:231-245 | the IDs browsed, then the queue, are the root followed by every container found, in order |
| MainWindowKt.RunTakes | src/main/java/net/mm2d/cdsextractor/MainWindow.kt:234-235 | IDs are taken from the front only, at most the bound |
| MainWindowKt.RunKeepsArchive | src/main/java/net/mm2d/cdsextractor/MainWindow.kt:230-252 | the walk never reuses a name and writes only under `<name>/cds/` |
| MainWindowKt.RunEnds | src/main/java/net/mm2d/cdsextractor/MainWindow.kt:234-253 | the walk never stops on an error, because `onError` is empty; it completes only with the queue empty and is cancelled only with the flag set |
| MainWindowKt.WholePageIsOnlyPage | src/main/java/net/mm2d/cdsextractor/MainWindow.kt:248-249 | a page named by the ID alone is the first and only page of its browse |
| MainWindowKt.NamingAgreesWithJava | src/main/java/net/mm2d/cdsextractor/MainWindow.kt:248-252 | with several pages, or one page holding every match, each page gets the name the Java version gives its description |
| MainWindowKt.SuffixesAgree | src/main/java/net/mm2d/cdsextractor/MainWindow.kt:246-252 | the two naming rules agree when holding every match and being the only page coincide |
| MainWindowKt.NamingDiffersOnShortListing | src/main/java/net/mm2d/cdsextractor/MainWindow.kt:248-252 | a lone page with 5 of 7 matches is `(0-4).xml` here and named by the ID alone in Java |
| MainWindowKt.MainWindow.AddEntryName | src/main/java/net/mm2d/cdsextractor/MainWindow.kt:197 | `Set.add`: true exactly when the name was new; the name is in the set afterwards |
| MainWindowKt.MainWindow.MakeUniquePath | src/main/java/net/mm2d/cdsextractor/MainWindow.kt:192-207 | returns `UniquePath` of the names used before, and adds exactly that name |
| MainWindowKt.MainWindow.MakePath | src/main/java/net/mm2d/cdsextractor/MainWindow.kt:179-182 | `makeUniquePath(base + "/" + sanitised name, ".xml")` |
| MainWindowKt.MainWindow.MakeChunkPath | src/main/java/net/mm2d/cdsextractor/MainWindow.kt:185-189 | `makeUniquePath(base + "/" + sanitised name, suffix + ".xml")` |
| MainWindowKt.MainWindow.WriteZipEntry | src/main/java/net/mm2d/cdsextractor/MainWindow.kt:210-220 | appends one `(path, data)` entry |
| MainWindowKt.MainWindow.PagePath | src/main/java/net/mm2d/cdsextractor/MainWindow.kt:246-252 | a page starting at 0 and holding every match is named by the ID alone, any other by `(start-end)` with `end = start + number - 1` |
| MainWindowKt.MainWindow.Discovered | src/main/java/net/mm2d/cdsextractor/MainWindow.kt:239-245 | the `forEach` over a page's objects and the progress text |
| MainWindowKt.MainWindow.OnNext | src/main/java/net/mm2d/cdsextractor/MainWindow.kt:238-252 | the `onNext` block is `HandlePage` |
| MainWindowKt.MainWindow.Subscribe | src/main/java/net/mm2d/cdsextractor/MainWindow.kt:236-253 | pages go to `onNext` in order until one throws |
| MainWindowKt.MainWindow.Visit | src/main/java/net/mm2d/cdsextractor/MainWindow.kt:235-253 | one pass of the `while` body is `KtStep` |
| MainWindowKt.MainWindow.DumpAllDir | src/main/java/net/mm2d/cdsextractor/MainWindow.kt:226-255 | the names, entries and progress texts are those of `Run` from the root |

## Left out

- The Swing window, the device tree, the file chooser, server discovery and the executor thread are not modelled. The cancel flag, which another thread sets, is a parameter `cancel`, read at each loop head with the number of IDs taken so far.
- `saveDescription` is not modelled; it writes the device and service descriptions that the server objects supply.
- Zip and file I/O are not modelled: the zip stream is a log of `(path, data)` entries. The `IOException` of the Java `writeZipEntry`, and the failures the Kotlin `runCatching` swallows, are not modelled.
- XML parsing is not modelled: the document is a parameter yielding the child nodes, or `None` on a parser exception. `new CdsObject(udn, element)` is a parameter yielding the object, or `None` on `IllegalArgumentException`. Only the object ID and the container flag of a `CdsObject` are modelled.
- The network is not modelled: `invokeSync` is a parameter from (starting index, requested count) to a response or a failure. `BrowseArgument` and `BrowseResponse` are folded into it.
- The `MediaServer` constructor checks depend on device and service lookups and are not modelled.
- ChapterInfo.java is not part of this model. It downloads over HTTP and computes with floating point.
- Logging is not modelled. `TagMap.hashCode` and `Tag.getName` are not modelled; the name is a field.
- Kotlin `!!` null assertions are not modelled: IDs and names are never null here.
- TextParseUtils.ParseIntSafely: accepts ASCII digits only; `Integer.parseInt` also accepts other Unicode decimal digits.
- MainWindowJava.MainWindow.DumpAllDir: browses at most `limit` IDs and then ends with `StepLimit`. The source keeps no set of visited IDs, so a catalog whose containers form a cycle is walked forever. `count` and the progress arithmetic are unbounded integers here, where the source uses 32-bit `int`; they differ only past 2^31 - 1 IDs queued.
- MainWindowKt.MainWindow.DumpAllDir: browses at most `limit` IDs, for the same reason. `count` is unbounded here, as in the Java version.
- ExtractorWalk.EnqueueContainers: `count` is an unbounded integer, where the source's `count++` is on a 32-bit `int`; the two differ only past 2^31 - 1 IDs queued.
- MediaServer.Browse: the next index is computed without 32-bit wrap-around: this is the corrected loop of "## Findings". It differs from the source only when a server returns more entries than were requested. The Kotlin walk (`MainWindowKt.PagesOf`) uses this loop.
- MainWindowKt.MainWindow.Visit: the pages come from the corrected `MediaServer.Browse` loop (see its line above). The pages of one ID are computed by the browse loop before any of them is handled, whereas the source interleaves each Browse request with the `onNext` of the page before. `MainWindowKt.PagesDelivered` shows that the same pages reach `onNext` either way. The handlers touch neither the server nor the loop's own state.

## Findings

| source | as written | input that shows it | evidently intended | confidence | as-written member | corrected member |
|---|---|---|---|---|---|---|
| src/main/java/net/mm2d/android/upnp/cds/MediaServer.kt:103 | `start += number` in 32-bit `Int` wraps when a server reports a NumberReturned larger than requested | `startingIndex` 10, `requestedCount` 0, NumberReturned = TotalMatches = 2147483647: `start` becomes -2147483639 and the loop asks again from below its last index | the next index passes TotalMatches and the loop ends; indexes only grow | low: needs a server that returns more than it was asked for; not executed | MediaServer.StartWrapsAsWritten | MediaServer.BrowseFrom |

`MediaServer.BrowseFrom` advances the index without wrap-around.
`MediaServer.BrowseStartsIncrease` and `MediaServer.BrowseBounded` prove that
its starting indexes strictly increase and that the loop ends.
