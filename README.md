# s3du prefix aggregation, in Dafny

`s3du` is a disk-usage tool for Amazon S3. For every bucket it lists the objects and
credits each object's size to every "directory" prefix of its key. It then prints the
object count and the prefixes whose depth is at most 3, largest total first. This
project models that per-bucket computation and proves what it does:

- `java_split.dfy` (module `JavaSplit`) gives the exact semantics of Java's
  `String.split("/")` and the prefix depth the report filters on. A key without `/`
  comes back whole, so `""` gives `[""]`. Otherwise trailing empty pieces are dropped:
  `"a/b/"` gives `["a","b"]` and `"/"` gives `[]`.
- `path_aggregator.dfy` (module `PathAggregator`) holds the ingestion loop. `IngestObject`
  is the inner loop, which builds each prefix with a growing path string and does the
  `putIfAbsent`/`put` pair. `ScanBucket` is the outer loop, with the object counter and
  the object limit. The functions `Prefixes`, `AddAll` and `Ingested` specify both loops,
  and the lemmas about those functions give the properties.
- `report_builder.dfy` (module `ReportBuilder`) holds the report.
  - `SortByValue` is `sortByValue`, a stable sort by ascending total.
  - `Reverse` is `Collections.reverse`, an in-place swap loop on an array.
  - `FilterByDepth` is the depth filter.
  - `Report` is the whole pipeline, from the totals map to the emitted `(total, key)` lines.
- `disk_usage.dfy` (module `DiskUsage`) combines the scan and the report for one bucket,
  using the program's constants: object limit 0 (off) and maximum depth 3.
  `BucketReport` states the end-to-end result. Every line is a generated prefix of depth
  at most 3, carrying the sum of the sizes of the objects that generated it. Every such
  prefix appears exactly once. Totals never increase down the list.
- `seqs.dfy` (module `Seqs`) has one shared notion, `Distinct`, and two facts about it.

How prefixes are generated, as the code does it:

- A key whose split has n > 1 segments yields the n-1 prefixes `s0/`, `s0/s1/`, and so on
  up to the second-to-last segment. The last segment never becomes a key.
- A key with exactly one segment is counted under that segment, with no trailing `/`. So
  `"a.txt"` counts under `"a.txt"`, and the marker `"a/"` counts under `"a"`.
- A key made only of `/` yields nothing.

Where the design description of the program and its code disagree, the model follows the
code:

- The description says a prefix's total is the sum over every object whose key starts
  with it. The code credits an object only to the prefixes it generates. A directory
  marker `"a/b/"` counts toward `"a/"` but not toward `"a/b/"` (`DirectoryMarkerTotals`),
  and the marker `"a/"` counts toward `"a"` (`RootMarkerPrefixes`). `RolledUp` is
  therefore defined over generated prefixes.
- The description treats a maximum depth of 0 or less as "no filtering". The code compares
  `split("/").length <= maxDepth` literally, and `FilterByDepth` does the same.
- The description counts the trailing empty segment, so `"a/b/"` would have depth 3. Java
  drops it, so the depth is 2 (`SplitExamples`, `SplitSlashTerminated`).
- The description breaks ties between equal totals deterministically. In the code, the
  order among equal totals is the hash map's iteration order, kept by the stable sort and
  then reversed. The model takes that order as an arbitrary enumeration of the keys, and
  the contracts leave it unspecified.

## Model

| member | source | states |
|---|---|---|
| JavaSplit.JoinRawSplit | src/main/java/s3du.java:60 | cutting a key at every `/` and joining the pieces with `/` gives the key back |
| JavaSplit.RawSplitJoin | src/main/java/s3du.java:60 | pieces free of `/`, once joined, are cut back into exactly those pieces |
| JavaSplit.SplitNoSeparator | src/main/java/s3du.java:60 | a key without `/` splits into itself alone, depth 1 |
| JavaSplit.SplitWithinRaw | src/main/java/s3du.java:60 | `split` returns a leading part of the full cut: only trailing pieces are ever dropped |
| JavaSplit.SplitSlashTerminated | src/main/java/s3du.java:88 | a prefix `p0/…/pn/` splits into its pieces minus trailing empty ones; its depth is at most the number of pieces, and equal to it when the last piece is non-empty |
| JavaSplit.SplitExamples | src/main/java/s3du.java:60 | `split` gives `[""]` for `""`, `["a","b"]` for `"a/b/"` (depth 2), `[]` for `"/"` and `"///"`, `["","a"]` for `"/a"` |
| PathAggregator.SingleSegmentPrefix | src/main/java/s3du.java:62-66 | a key with one segment is counted under that segment alone, with no `/`; it is a leading part of the key, and it is the key itself when the key has no `/` |
| PathAggregator.PrefixCount | src/main/java/s3du.java:62-68 | zero segments give no prefix, one segment gives one, n > 1 segments give n-1 |
| PathAggregator.MultiSegmentPrefixes | src/main/java/s3du.java:62-70 | for n > 1 segments there are n-1 prefixes; the i-th is the first i+1 segments joined with `/` plus a trailing `/`, so the last segment is never a prefix |
| PathAggregator.PrefixChain | src/main/java/s3du.java:68-70 | the first prefix is segment 0 plus `/` (or segment 0 alone for one segment), and each later one extends the previous by the next segment and `/` |
| PathAggregator.PrefixNesting | src/main/java/s3du.java:68-70 | each prefix is a proper leading part of the next |
| PathAggregator.PrefixesDistinct | src/main/java/s3du.java:68-72 | no prefix is generated twice for one key, so each object adds its size to each of its prefixes once |
| PathAggregator.PrefixesOfKey | src/main/java/s3du.java:60-70 | every prefix is a leading part of the key, and a proper one when the key has more than one segment |
| PathAggregator.PrefixDepth | src/main/java/s3du.java:68-70 | the i-th prefix has depth at most i+1, and exactly i+1 when segment i is non-empty |
| PathAggregator.AddAllSpec | src/main/java/s3du.java:71-72 | adding a size over distinct prefixes creates exactly the missing ones, adds the size to each of them, and leaves every other key unchanged |
| PathAggregator.IngestEffect | src/main/java/s3du.java:68-73 | ingesting one object adds its size to exactly its prefixes and changes no other key |
| PathAggregator.IngestObject | src/main/java/s3du.java:59-73 | the in-place prefix loop leaves the map equal to the specification `AddAll` over the key's prefixes |
| PathAggregator.LoopBuildsPrefixes | src/main/java/s3du.java:68-73 | after n turns of the prefix loop the path buffer holds the n-th prefix and the totals are those after adding the size to the first n prefixes |
| PathAggregator.LoopComputesPrefixes | src/main/java/s3du.java:62-73 | the loop's turn count (one for a one-segment key, n-1 for n segments, none for an empty split) is the number of prefixes, so at the end the totals are the size added to every prefix |
| PathAggregator.ScanBucket | src/main/java/s3du.java:55-78 | the counter counts every object listed; with the limit off every record is ingested; with limit L > 0 it stops after min(n, L+1) records; the map is the ingestion of exactly those records |
| PathAggregator.IngestedIsRollup | src/main/java/s3du.java:57-78 | after ingesting records, a key is present exactly when some record generated it, and its total is the sum of the sizes of the records that generated it |
| PathAggregator.IngestedGrows | src/main/java/s3du.java:57-78 | ingesting more records never removes a key or lowers a total |
| PathAggregator.ThreeSegmentPrefixes | src/main/java/s3du.java:60-72 | `a/b/c` (segments free of `/`, `c` non-empty) yields prefixes `a/` and `a/b/` |
| PathAggregator.DirectoryMarkerPrefixes | src/main/java/s3du.java:60-72 | the marker `a/b/` yields only `a/`, not `a/b/` |
| PathAggregator.RootMarkerPrefixes | src/main/java/s3du.java:60-66 | the marker `a/` is counted under `a`, without the slash |
| PathAggregator.SeparatorsOnlyPrefixes | src/main/java/s3du.java:60-68 | a key made only of `/` splits to nothing and touches no prefix |
| PathAggregator.RootObjectTotals | src/main/java/s3du.java:62-72 | one object with no `/` gives the map `{key: size}` |
| PathAggregator.DirectoryMarkerTotals | src/main/java/s3du.java:62-72 | one marker `a/b/` gives the map `{a/: size}` |
| PathAggregator.NestedTotals | src/main/java/s3du.java:57-73 | `a/b/c` of size x and `a/b/d` of size y give `{a/: x+y, a/b/: x+y}` |
| ReportBuilder.Insert | src/main/java/s3du.java:37-39 | inserting into an ascending list keeps it ascending and adds exactly that entry |
| ReportBuilder.SortByValue | src/main/java/s3du.java:35-42 | the result is ascending by total and a permutation of the input entries |
| ReportBuilder.SortedEntriesOfMap | src/main/java/s3du.java:35-42 | sorting a map's entries gives exactly its key/value pairs: as many as keys, each pair from the map, every key present, no key twice |
| ReportBuilder.Reverse | src/main/java/s3du.java:85 | the swap loop leaves the array holding the old contents back to front |
| ReportBuilder.ReversedIsDescending | src/main/java/s3du.java:83-85 | the keys of an ascending entry list, reversed, are by non-increasing total |
| ReportBuilder.ReversedSameKeys | src/main/java/s3du.java:85 | reversal keeps exactly the same keys, still without repetition |
| ReportBuilder.FilterByDepth | src/main/java/s3du.java:86-89 | a key is kept exactly when it was in the list and its `split("/").length` is at most the maximum depth; no repetition is introduced |
| ReportBuilder.FilterAppend | src/main/java/s3du.java:86-90 | filtering a concatenation concatenates the filtered parts, so the kept keys stay in their original order |
| ReportBuilder.FilterKeepsDescending | src/main/java/s3du.java:85-90 | filtering a list that is by descending total keeps it by descending total |
| ReportBuilder.ShownFromSorted | src/main/java/s3du.java:84-89 | reversing the keys of any ascending list of a map's pairs and filtering them gives the map's keys within the depth, each once, by non-increasing total |
| ReportBuilder.ShownKeysSpec | src/main/java/s3du.java:83-90 | the shown keys are exactly the map's keys within the maximum depth, each once, by non-increasing total |
| ReportBuilder.LinesOfSpec | src/main/java/s3du.java:90-92 | emitting each shown key with its total yields lines whose keys are the shown keys, each a pair of the map within the depth, every such key present, totals non-increasing, no key twice |
| ReportBuilder.Report | src/main/java/s3du.java:83-92 | each line pairs a key of the map with its total and is within the depth; every key within the depth appears; totals never increase; no key repeats; the keys are those of the sort-reverse-filter pipeline |
| DiskUsage.IterationOrder | src/main/java/s3du.java:37 | the map's entries are visited in some order that lists every key exactly once |
| DiskUsage.BucketReport | src/main/java/s3du.java:47-92 | with limit 0 every object is counted; every line is a generated prefix of depth at most 3 carrying the sum of the sizes of the objects that generated it; each such prefix appears once; largest total first |
| DiskUsage.TwoLevelReport | src/main/java/s3du.java:83-90 | for a map with one key of depth 1 and one of depth 2, depth limit 1 shows exactly the first and depth limit 2 shows both, in any iteration order |
| DiskUsage.NestedReport | src/main/java/s3du.java:57-92 | for the objects `a/b/c` and `a/b/d`, depth limit 1 shows exactly `a/` and depth limit 2 shows exactly `a/` and `a/b/` |

## Left out

- AWS credentials and the S3 client (`init`, lines 20-33) are external I/O. They are not
  modelled.
- Listing buckets and listing a bucket's objects page by page (lines 51-57) are network
  calls. A bucket's object listing is the parameter `records`, in listing order.
- Iteration over every bucket (lines 53-94) is not modelled, because each bucket starts
  from a fresh map and counter, so buckets are independent. `BucketReport` models one
  bucket.
- Printing is not modelled, because converting numbers to text is formatting, not
  computation. This covers the bucket count, `bucket: …`, `objects: …` and the
  `<total> : <key>` lines (lines 52, 81-82 and 91). The lines are returned as `Entry`
  values.
- The exception handlers (lines 95-117) only print. They are not modelled.
- `ConcurrentHashMap` is used by one thread at a time, so it is modelled as a plain map
  with no concurrency.
- Object sizes are Java `long` and the counter is a Java `int`. Both are modelled as
  unbounded naturals, and overflow past 2^63-1 or 2^31-1 is not modelled.
- ReportBuilder.Report reads each total from `totals` where the program reads it from
  `sortedKeyMap`. `SortedEntriesOfMap` proves the two maps hold the same pairs.
- ReportBuilder.Report does not state the order among equal totals. The program takes that
  order from the hash map's iteration order, which it does not fix, and the model leaves
  it just as open.
