# CodeCharta core, modelled in Dafny

CodeCharta shows a software project as a city. The project is a tree of packages and files, and each file carries named metrics (lines of code, complexity, …). This project models the parts that prepare that tree for display and a few small pieces around them.

- **Node decoration** (`nodeDecorator.ts`):
  - every node gets its path (`/` plus the names from the root down, joined by `/`) and an id, its index in breadth-first order;
  - every node gets the missing metric and edge-metric maps, with the unary metric set to 1;
  - chains of packages that each hold one package are merged into one package named `A/B`;
  - every leaf gets the catalogued metrics it lacks, set to 0;
  - every node is flagged flattened or excluded by the blacklist patterns;
  - every package gets, for each metric, the sum or the median (when the metric is relative) of the values on its non-excluded leaves. This covers deltas in delta mode and the incoming and outgoing halves of edge metrics.
- **Render data store**: the `setRenderData` action and its reducer.
- **Map download**: the date token `d_m_yyyy` is spliced into the file name after its first dot-separated token, `.json` is appended when missing, and the exported map is assembled.
- **File loading**: a `CCFile` is built from a file's parsed content. The root name is `root` and the root path is `/root`.
- **Jasome importer**: the project builder turns packages and classes into nodes. Each node is inserted under a path made from the package name. Metric values have decimal commas turned into points and are parsed as `BigDecimal`.
- **Sonar importer**: `PagingInfo`'s `equals`, `hashCode` (Java `int` arithmetic, wrapping at 32 bits) and `toString`.
- **Source-code parser**: `FileMetrics`, a mutable map from metric names to values.

The tree passes are modelled on values. A tree is a `Node` datatype, and a position in it is a sequence of child indices (`Hierarchy.At`). A pass that rewrites every node in place with a callback becomes `Hierarchy.MapNodes`, which builds a new tree. The id pass keeps its loop over the breadth-first list of nodes (`Hierarchy.Descendants`) as a method with invariants. So does the blacklist loop. The Jasome builder and `FileMetrics` are classes whose methods change their fields.

Points where the code behaves in a way a reader might not expect:
- Ids follow d3's `descendants()`, which is breadth-first, not pre-order.
- A merged package takes its child's link only when that link is truthy (not missing and not empty).
- The median of a relative node metric is taken over the leaf values that are not 0. The code filters values with `!!x`, which drops zeros. An edge-metric entry is an object, so it is never dropped, even when both its numbers are 0.

## Model

| member | source | states |
|---|---|---|
| NodeDecorator.DecorateMap | visualization/app/codeCharta/util/nodeDecorator.ts:20-25 | the result is the four passes applied to the input tree; no node is an empty middle package; every node has both maps with the unary metric at 1; with a catalogue, every leaf has every catalogued metric; every node's two flags are the verdict of the flatten and exclude patterns on its transformed path; the result has the input's leaves, in order, each with its metrics completed and flagged and otherwise unchanged |
| NodeDecorator.DecoratedMapLeaves | visualization/app/codeCharta/util/nodeDecorator.ts:20-25 | compaction merges only nodes with one child, so the decorated tree has as many leaves as the input, and the i-th is the i-th input leaf with the unary metric at 1, the catalogued metrics added as 0, its other values kept and its flags set from the patterns |
| Hierarchy.LeavesOfMapNodes | visualization/app/codeCharta/util/nodeDecorator.ts:111-120 | the leaves of a tree mapped node by node are the mapped leaves of the tree, in order |
| NodeDecorator.PreDecorateFile | visualization/app/codeCharta/util/nodeDecorator.ts:27-30 | the file's meta and settings stay; the tree keeps its shape; each node's path is `/` plus the names from the root joined by `/`; each node's id is its index in breadth-first order; the root's id is 0 and no two nodes share an id |
| NodeDecorator.DecorateNodesWithIds | visualization/app/codeCharta/util/nodeDecorator.ts:50-58 | the loop over the breadth-first list gives the k-th node id k; the shape and every other field stay; ids are distinct and the root's is 0 |
| Hierarchy.DescendantsEnumerate | visualization/app/codeCharta/util/nodeDecorator.ts:52-53 | the breadth-first list starts with the root, holds only positions of the tree, holds each position once and holds every position |
| NodeDecorator.DecorateMapWithPathAttribute | visualization/app/codeCharta/util/nodeDecorator.ts:96-109 | a file without a map is returned unchanged; otherwise the shape stays and every node's path becomes `/` plus the names along the way from the root, nothing else changing |
| NodeDecorator.PathOfNamesRoundTrip | visualization/app/codeCharta/util/nodeDecorator.ts:100-105 | when no name contains `/`, splitting a node's path after the leading `/` gives back exactly the names from the root to the node |
| CodeChartaService.RootPath | visualization/app/codeCharta/codeCharta.service.ts:11-12 | a tree whose root is named `root` gives the root the path `/root` and every other node a path that starts with `/root/` |
| NodeDecorator.MissingObjectsAt | visualization/app/codeCharta/util/nodeDecorator.ts:111-120 | each node ends with both maps and the unary metric at 1; its other metrics keep their values, no other key is added, an existing edge map stays and a missing one becomes empty; nothing else changes |
| NodeDecorator.FillMissingObjects | visualization/app/codeCharta/util/nodeDecorator.ts:114-118 | one node ends with both maps, its metric keys become its old keys plus `unary`, a missing edge map becomes empty, and its children are untouched |
| NodeDecorator.MissingObjectsIdempotent | visualization/app/codeCharta/util/nodeDecorator.ts:111-120 | filling the missing objects a second time changes nothing |
| NodeDecorator.MissingObjectsEverywhere | visualization/app/codeCharta/util/nodeDecorator.ts:111-120 | after the pass every node has both maps with the unary metric at 1 |
| Compaction.Absorb | visualization/app/codeCharta/util/nodeDecorator.ts:73-82 | one merge takes over the only child's children, metrics, edge metrics and deltas, appends `/` and the child's name to the name and the path, takes the child's link only when it is truthy and otherwise keeps its own, keeps the id and both flags, makes the tree smaller and keeps its leaves in order |
| Compaction.Compact | visualization/app/codeCharta/util/nodeDecorator.ts:60-94 | no empty middle package is left; the leaves are the same, in the same order; the id stays; the name and the path are extended by the same suffix; what a merged node ends with is stated by `CompactChain` |
| Compaction.CompactChain | visualization/app/codeCharta/util/nodeDecorator.ts:71-89 | a compacted node has the metrics, edge metrics and deltas of the bottom of its chain of only children, the last truthy link along that chain (its own when there is none), its name and path followed by `/` and each absorbed name, its own id and flags, and the bottom's children, each compacted when there are several |
| Compaction.CompactBottom | visualization/app/codeCharta/util/nodeDecorator.ts:72-88 | the three maps and the children of a compacted node are those of the bottom of its chain, the children compacted when there are several; the id and flags stay |
| Compaction.CompactLink | visualization/app/codeCharta/util/nodeDecorator.ts:77-79 | a compacted node's link is the last truthy link of the children it absorbed, or its own when none has one |
| Compaction.CompactName | visualization/app/codeCharta/util/nodeDecorator.ts:75-76 | a compacted node's name and path gain `/` and the name of each absorbed child, top to bottom |
| Compaction.LastTruthyLinkCons | visualization/app/codeCharta/util/nodeDecorator.ts:77-79 | taking one child's truthy link and then looking through the rest of the chain gives the last truthy link of the whole chain |
| Compaction.CompactCompacted | visualization/app/codeCharta/util/nodeDecorator.ts:71-89 | a tree without empty middle packages is left as it is |
| Compaction.CompactIdempotent | visualization/app/codeCharta/util/nodeDecorator.ts:60-94 | compacting twice is compacting once |
| Compaction.CompactExample | visualization/app/codeCharta/util/nodeDecorator.ts:72-83 | `A/B/X` and `C/D/Y` merge into `A/B` and `C/D` with paths `/A/B` and `/C/D`; `A/B` takes `B`'s link; `C/D` keeps `C`'s link because `D`'s link is empty; a package holding one file is not merged |
| NodeDecorator.CompactKeepsObjects | visualization/app/codeCharta/util/nodeDecorator.ts:21-22 | merging moves maps from a child to its parent, so every node still has both maps after compaction |
| NodeDecorator.ZeroFill | visualization/app/codeCharta/util/nodeDecorator.ts:126-130 | the keys become the old keys plus the catalogued names; old values stay; added values are 0 |
| NodeDecorator.FillLeafMetrics | visualization/app/codeCharta/util/nodeDecorator.ts:125-131 | a node with children or without a metric map is unchanged; a leaf with a map gains exactly the catalogued names as keys and nothing else about it changes |
| NodeDecorator.DecorateLeavesWithMissingMetrics | visualization/app/codeCharta/util/nodeDecorator.ts:122-133 | without a catalogue (`null`) the tree is returned unchanged |
| NodeDecorator.MissingMetricsAt | visualization/app/codeCharta/util/nodeDecorator.ts:122-133 | with a catalogue, a leaf's metric keys become its old keys plus the catalogued names, old values staying and new ones 0; a package is left exactly as it was; nothing but a leaf's metric map changes |
| NodeDecorator.LeafMetricsEverywhere | visualization/app/codeCharta/util/nodeDecorator.ts:21-23 | on a compacted tree with the maps in place, filling leaf metrics keeps it compacted with the maps in place and gives every leaf every catalogued metric |
| NodeDecorator.FlagsEverywhere | visualization/app/codeCharta/util/nodeDecorator.ts:21-24 | flagging keeps the tree compacted, the maps and the leaf metrics in place, and sets both flags of every node from its transformed path |
| BlacklistFilter.SplitBlacklist | visualization/app/codeCharta/util/nodeDecorator.ts:36-39 | the loop puts each item's transformed path into the flatten list or the exclude list, by the item's kind, in blacklist order |
| BlacklistFilter.PatternsOfSound | visualization/app/codeCharta/util/nodeDecorator.ts:36-39 | a pattern is in a kind's list if and only if some item of that kind has it after transformation |
| BlacklistFilter.PatternsPartition | visualization/app/codeCharta/util/nodeDecorator.ts:36-39 | the two lists together hold exactly one pattern per item |
| BlacklistFilter.DecorateMapWithBlacklist | visualization/app/codeCharta/util/nodeDecorator.ts:32-48 | the shape stays; every node is flattened exactly when the flatten patterns match its transformed path and excluded exactly when the exclude patterns do; no other field changes |
| BlacklistFilter.Flag | visualization/app/codeCharta/util/nodeDecorator.ts:43-47 | one node is flattened exactly when the flatten patterns match its transformed path, excluded exactly when the exclude patterns do, and nothing else about it changes |
| Aggregation.NotExcludedMembers | visualization/app/codeCharta/util/nodeDecorator.ts:146 | a leaf takes part in the aggregation if and only if it is a leaf of the node and is not excluded |
| Aggregation.WriteMetrics | visualization/app/codeCharta/util/nodeDecorator.ts:161-172 | each catalogued metric is set to its aggregate over the leaves' maps; other keys keep their values; no other key is added |
| Aggregation.WriteEdgeMetrics | visualization/app/codeCharta/util/nodeDecorator.ts:181-185 | each catalogued edge metric is set to its aggregate over the leaves' edge maps; other keys stay |
| Aggregation.WriteMetricsTwice | visualization/app/codeCharta/util/nodeDecorator.ts:161-172 | writing the aggregates a second time from the same leaves changes nothing |
| Aggregation.DecorateParentNodesWithAggregatedAttributes | visualization/app/codeCharta/util/nodeDecorator.ts:135-152 | a missing map stays missing; otherwise the result has the same leaves, in the same order |
| Aggregation.AggregateNodeAggregates | visualization/app/codeCharta/util/nodeDecorator.ts:154-186 | the callback leaves a leaf alone; on a package it sets each metric (and each delta in delta mode) to the aggregate over the non-excluded leaves and each edge metric likewise, keeping the other keys and every other field |
| Aggregation.AggregatedAt | visualization/app/codeCharta/util/nodeDecorator.ts:143-149 | at every position of the tree, the node after the pass is the aggregate of the node before it, as above |
| Aggregation.AggregateNode | visualization/app/codeCharta/util/nodeDecorator.ts:145-149 | the callback returns a leaf unchanged and changes at most the metric, delta and edge maps of a package |
| Aggregation.AggregationIdempotent | visualization/app/codeCharta/util/nodeDecorator.ts:135-152 | aggregating an aggregated tree again changes nothing |
| Aggregation.TotalAt | visualization/app/codeCharta/util/nodeDecorator.ts:161-167 | for an absolute metric, every package ends with the total over its non-excluded leaves and every leaf is unchanged |
| Aggregation.LeafTotalOfChildren | visualization/app/codeCharta/util/nodeDecorator.ts:146 | the total over a package's non-excluded leaves is the sum of its children's totals |
| Aggregation.SumOfChildren | visualization/app/codeCharta/util/nodeDecorator.ts:161-167 | after the pass, a package's absolute metric equals the sum of its children's values, counting an excluded leaf child as 0 |
| LeafAggregation.AggregateLeafMetric | visualization/app/codeCharta/util/nodeDecorator.ts:188-203 | a metric that is not relative aggregates to the total of the leaves' values; a relative one to 0 when no value is truthy, otherwise to a value between the smallest and the largest truthy value |
| LeafAggregation.TruthyValues | visualization/app/codeCharta/util/nodeDecorator.ts:189 | the filter keeps at most one value per leaf and never a 0; its full content and order are stated by `TruthyOfOne`, `TruthyAppend` and `TruthyMembers` |
| LeafAggregation.TruthyOfOne | visualization/app/codeCharta/util/nodeDecorator.ts:189 | one leaf contributes its value of the metric exactly when that value is present and not 0 |
| LeafAggregation.TruthyAppend | visualization/app/codeCharta/util/nodeDecorator.ts:189 | the filter keeps leaf order: the values of two runs of leaves are the first run's values followed by the second's |
| LeafAggregation.TruthyMembers | visualization/app/codeCharta/util/nodeDecorator.ts:189 | a value is kept if and only if it is not 0 and some leaf has it as its value of the metric |
| LeafAggregation.SumOfTruthyIsTotal | visualization/app/codeCharta/util/nodeDecorator.ts:189-201 | summing only the truthy values gives the total over all values, since the dropped ones are 0 or missing |
| LeafAggregation.RelativeMetric | visualization/app/codeCharta/util/nodeDecorator.ts:196-198 | a relative metric with truthy values aggregates to the median of those values |
| LeafAggregation.AggregateLeafEdgeMetric | visualization/app/codeCharta/util/nodeDecorator.ts:205-233 | no entries give `{0, 0}`; a metric that is not relative gives the incoming and outgoing totals; a relative one gives an incoming and an outgoing value each between the smallest and largest of its half |
| LeafAggregation.EdgeSumsAreTotals | visualization/app/codeCharta/util/nodeDecorator.ts:213-231 | the sums of the collected incoming and outgoing values are the totals over the leaves |
| LeafAggregation.RelativeEdgeMetric | visualization/app/codeCharta/util/nodeDecorator.ts:224-225 | a relative edge metric with entries has, as its incoming value, the median of the incoming values and, as its outgoing value, the median of the outgoing values |
| LeafAggregation.SortAscending | visualization/app/codeCharta/util/nodeDecorator.ts:237 | the result is sorted ascending and is a permutation of the input |
| LeafAggregation.SortedUnique | visualization/app/codeCharta/util/nodeDecorator.ts:237 | two sorted permutations of the same values are equal |
| LeafAggregation.Median | visualization/app/codeCharta/util/nodeDecorator.ts:235-239 | the median lies between the smallest and the largest value and is one of the values when their count is odd |
| LeafAggregation.MedianOfSorted | visualization/app/codeCharta/util/nodeDecorator.ts:235-239 | the median is the mean of the elements at ⌊(n-1)/2⌋ and ⌈(n-1)/2⌉ of any ascending arrangement of the values |
| LeafAggregation.MedianIgnoresOrder | visualization/app/codeCharta/util/nodeDecorator.ts:235-239 | two arrangements of the same values have the same median |
| AggregationExamples.MedianOfTwo | visualization/app/codeCharta/util/nodeDecorator.ts:235-239 | the median of two values, in either order, is their mean |
| AggregationExamples.MedianOfThree | visualization/app/codeCharta/util/nodeDecorator.ts:235-239 | the median of three values, in any order, is the middle one |
| AggregationExamples.RelativeAggregateExample | visualization/app/codeCharta/util/nodeDecorator.ts:188-203 | three leaves with non-zero values of a relative metric, in any order, aggregate to the middle value |
| AggregationExamples.ZeroDroppedByNodeMetric | visualization/app/codeCharta/util/nodeDecorator.ts:189 | a leaf value of 0 is left out of a relative node metric's median |
| AggregationExamples.ZeroKeptByEdgeMetric | visualization/app/codeCharta/util/nodeDecorator.ts:210 | an edge entry `{0, 0}` is kept in a relative edge metric's median |
| RenderData.SetRenderDataAction | visualization/app/codeCharta/state/store/treeMap/renderData/renderData.actions.ts:14-21 | the action has type `SET_RENDER_DATA`; its payload is the given render data, or the default (`null`) when none is given |
| RenderData.DefaultRenderData | visualization/app/codeCharta/state/store/treeMap/renderData/renderData.actions.ts:21 | the default render data is `null` |
| RenderData.Reduce | visualization/app/codeCharta/state/store/treeMap/renderData/renderData.reducer.ts:4-11 | a `SET_RENDER_DATA` action yields its payload; any other action yields the state, or the default payload when there is no state |
| RenderData.InitialStateIsNull | visualization/app/codeCharta/state/store/treeMap/renderData/renderData.reducer.ts:4 | the initial state is `null` |
| RenderData.ResetToDefault | visualization/app/codeCharta/state/store/treeMap/renderData/renderData.actions.ts:14-21 | an action created without an argument resets the state to `null` |
| RenderData.SetTwice | visualization/app/codeCharta/state/store/treeMap/renderData/renderData.reducer.ts:4-11 | of two set actions in a row, the later one wins |
| DownloadService.SpliceSecond | visualization/app/codeCharta/core/download/download.service.ts:16 | the splice puts the new token second: the first token stays first and all the others follow it, one place later |
| DownloadService.DateString | visualization/app/codeCharta/core/download/download.service.ts:13-14 | the date string has no dot, and it splits at `_` into the day, the month counted from 1 and the year |
| DownloadService.AddDateToFileName | visualization/app/codeCharta/core/download/download.service.ts:12-18 | the name's dot-separated tokens are the old tokens with the date string inserted as the second |
| DownloadService.DateTokenRemovable | visualization/app/codeCharta/core/download/download.service.ts:12-18 | dropping the second token of the dated name gives back the original name |
| DownloadService.NoDotFileName | visualization/app/codeCharta/core/download/download.service.ts:15-17 | a name without a dot gets `.` and the date appended |
| DownloadService.AddJsonFileEndingIfNecessary | visualization/app/codeCharta/core/download/download.service.ts:20-25 | the result ends with `.json` and starts with the name; it equals the name exactly when the name already ends with `.json`, and is otherwise the name followed by `.json` |
| DownloadService.JsonEndingIdempotent | visualization/app/codeCharta/core/download/download.service.ts:20-25 | adding the ending twice is adding it once |
| DownloadService.JsonEndingKeepsTokens | visualization/app/codeCharta/core/download/download.service.ts:20-25 | the dot-separated tokens are those of the name, possibly followed by `json` |
| DownloadService.DownloadFileName | visualization/app/codeCharta/core/download/download.service.ts:31-32 | the exported file name ends with `.json`, keeps the first token of the map's name and has the date as its second token |
| DownloadService.DownloadCurrentMap | visualization/app/codeCharta/core/download/download.service.ts:27-42 | the exported map carries the dated file name, the map's project name, API version, edges and attribute types, the map's root as its single node, and the settings' blacklist |
| CodeChartaService.GetCCFile | visualization/app/codeCharta/codeCharta.service.ts:40-56 | the file's meta carries the given name and the content's project name and API version; missing edges and blacklist become empty lists; missing attribute types become an empty table; the map is the first node, absent when there are no nodes |
| CodeChartaService.GetCCFileKeepsContent | visualization/app/codeCharta/codeCharta.service.ts:40-56 | when the content has all its parts, they can be read back from the file unchanged |
| PagingInfoModel.PagingInfo.Equals | analysis/import/SonarImporter/src/main/java/de/maibornwolff/codecharta/importer/sonar/model/PagingInfo.java:24-33 | equal if and only if the other object is a `PagingInfo` with the same three fields; `null` and other classes are unequal |
| PagingInfoModel.EqualsReflexive | analysis/import/SonarImporter/src/main/java/de/maibornwolff/codecharta/importer/sonar/model/PagingInfo.java:24-33 | every paging info equals itself |
| PagingInfoModel.EqualsSymmetric | analysis/import/SonarImporter/src/main/java/de/maibornwolff/codecharta/importer/sonar/model/PagingInfo.java:24-33 | `a.equals(b)` is `b.equals(a)` |
| PagingInfoModel.Wrap | analysis/import/SonarImporter/src/main/java/de/maibornwolff/codecharta/importer/sonar/model/PagingInfo.java:35-41 | the wrapped value is a 32-bit integer congruent to the input modulo 2^32 |
| PagingInfoModel.PagingInfo.HashCode | analysis/import/SonarImporter/src/main/java/de/maibornwolff/codecharta/importer/sonar/model/PagingInfo.java:35-41 | the hash is `961·pageIndex + 31·pageSize + total` wrapped to 32 bits |
| PagingInfoModel.HashCodeClosedForm | analysis/import/SonarImporter/src/main/java/de/maibornwolff/codecharta/importer/sonar/model/PagingInfo.java:35-41 | wrapping after each step of `31·result + field` gives the same as wrapping the closed form once |
| PagingInfoModel.EqualsConsistentWithHashCode | analysis/import/SonarImporter/src/main/java/de/maibornwolff/codecharta/importer/sonar/model/PagingInfo.java:24-41 | equal paging infos have equal hash codes |
| PagingInfoModel.ToStringParts | analysis/import/SonarImporter/src/main/java/de/maibornwolff/codecharta/importer/sonar/model/PagingInfo.java:43-50 | split at commas, the text is exactly the three `field=value` parts |
| PagingInfoModel.ToStringInjective | analysis/import/SonarImporter/src/main/java/de/maibornwolff/codecharta/importer/sonar/model/PagingInfo.java:43-50 | two paging infos with the same text are equal |
| PagingInfoModel.PagingInfo.ToString | analysis/import/SonarImporter/src/main/java/de/maibornwolff/codecharta/importer/sonar/model/PagingInfo.java:43-50 | the text starts with `PagingInfo{pageIndex=` and ends with `}` |
| FileMetricsModel.FileMetrics.constructor | analysis/import/SourceCodeParser/src/main/kotlin/de/maibornwolff/codecharta/importer/sourcecodeparser/metrics/FileMetrics.kt:5-7 | a new object holds no metric |
| FileMetricsModel.FileMetrics.Add | analysis/import/SourceCodeParser/src/main/kotlin/de/maibornwolff/codecharta/importer/sourcecodeparser/metrics/FileMetrics.kt:9-11 | the key now maps to the value; every other key reads as before |
| FileMetricsModel.FileMetrics.Get | analysis/import/SourceCodeParser/src/main/kotlin/de/maibornwolff/codecharta/importer/sourcecodeparser/metrics/FileMetrics.kt:13-15 | a key gives its value when present and nothing otherwise |
| FileMetricsModel.AddTwice | analysis/import/SourceCodeParser/src/main/kotlin/de/maibornwolff/codecharta/importer/sourcecodeparser/metrics/FileMetrics.kt:9-15 | of two adds under one key, the later value is read back; other keys are untouched |
| JasomeImporter.JasomeProjectBuilder.constructor | analysis/import/JasomeImporter/src/main/kotlin/de/maibornwolff/codecharta/importer/jasome/JasomeProjectBuilder.kt:8-10 | a new builder has inserted nothing |
| JasomeImporter.JasomeProjectBuilder.AddProject | analysis/import/JasomeImporter/src/main/kotlin/de/maibornwolff/codecharta/importer/jasome/JasomeProjectBuilder.kt:12-15 | the insertions grow by those of each package in turn, stopping at the first conversion error |
| JasomeImporter.JasomeProjectBuilder.AddPackage | analysis/import/JasomeImporter/src/main/kotlin/de/maibornwolff/codecharta/importer/jasome/JasomeProjectBuilder.kt:17-27 | the insertions grow by the package's own node (when it has a name that is not blank) and then by its classes, stopping at the first conversion error |
| JasomeImporter.JasomeProjectBuilder.AddClass | analysis/import/JasomeImporter/src/main/kotlin/de/maibornwolff/codecharta/importer/jasome/JasomeProjectBuilder.kt:29-34 | one class node is inserted under the package's path, or the conversion error is raised |
| JasomeImporter.ClassEffect | analysis/import/JasomeImporter/src/main/kotlin/de/maibornwolff/codecharta/importer/jasome/JasomeProjectBuilder.kt:29-34 | adding a class fails exactly when its node cannot be built, inserting nothing; otherwise it inserts just that node, under the path of the package name |
| JasomeImporter.PackageEffect | analysis/import/JasomeImporter/src/main/kotlin/de/maibornwolff/codecharta/importer/jasome/JasomeProjectBuilder.kt:17-27 | a package with a blank name adds only its class loop; a named package whose node cannot be built fails inserting nothing; otherwise its own node, at the parent of its path, comes first |
| JasomeImporter.ProjectEffect | analysis/import/JasomeImporter/src/main/kotlin/de/maibornwolff/codecharta/importer/jasome/JasomeProjectBuilder.kt:12-15 | a project without packages adds nothing; when package i is the first to fail, the project inserts what the packages before it inserted plus what package i inserted, and fails with package i's error, so the later packages do not run |
| JasomeImporter.EmptyProject | analysis/import/JasomeImporter/src/main/kotlin/de/maibornwolff/codecharta/importer/jasome/JasomeProjectBuilder.kt:13 | a project without packages inserts nothing |
| JasomeImporter.NamedPackageInsertions | analysis/import/JasomeImporter/src/main/kotlin/de/maibornwolff/codecharta/importer/jasome/JasomeProjectBuilder.kt:17-27 | when every node converts, a named package inserts its own node under its parent path first, named by the last dot-separated part of its name, and then each class under the package path, in order |
| JasomeImporter.BlankPackageAddsOnlyClasses | analysis/import/JasomeImporter/src/main/kotlin/de/maibornwolff/codecharta/importer/jasome/JasomeProjectBuilder.kt:18-25 | a package whose name is blank or missing inserts only class nodes, under the path of its name or of `""` |
| JasomeImporter.ClassesUnderPackage | analysis/import/JasomeImporter/src/main/kotlin/de/maibornwolff/codecharta/importer/jasome/JasomeProjectBuilder.kt:29-34 | every insertion made for a package's classes is a class node under that package's path |
| JasomeImporter.ForEachThrown | analysis/import/JasomeImporter/src/main/kotlin/de/maibornwolff/codecharta/importer/jasome/JasomeProjectBuilder.kt:13 | once an element raises an error, the elements after it add nothing |
| JasomeImporter.ForEachStopsAtFirstError | analysis/import/JasomeImporter/src/main/kotlin/de/maibornwolff/codecharta/importer/jasome/JasomeProjectBuilder.kt:13 | the first element that raises an error ends the loop: the loop inserts what came before it plus its own insertions, and fails with its error |
| JasomeImporter.CreatePackageNode | analysis/import/JasomeImporter/src/main/kotlin/de/maibornwolff/codecharta/importer/jasome/JasomeProjectBuilder.kt:40-46 | the node is a package named by the part of the name after the last dot, which holds no dot; it is created exactly when its metrics convert |
| JasomeImporter.CreateClassNode | analysis/import/JasomeImporter/src/main/kotlin/de/maibornwolff/codecharta/importer/jasome/JasomeProjectBuilder.kt:48-54 | the node is a class named by the class's name or `""`; it is created exactly when its metrics convert |
| JasomeImporter.Attributes | analysis/import/JasomeImporter/src/main/kotlin/de/maibornwolff/codecharta/importer/jasome/JasomeProjectBuilder.kt:41-44 | missing metrics give an empty map; otherwise the keys are exactly the names of the metrics whose name and value are not blank |
| JasomeImporter.Associate | analysis/import/JasomeImporter/src/main/kotlin/de/maibornwolff/codecharta/importer/jasome/JasomeProjectBuilder.kt:43-44 | the map is built exactly when every kept metric's value converts |
| JasomeImporter.AssociateValues | analysis/import/JasomeImporter/src/main/kotlin/de/maibornwolff/codecharta/importer/jasome/JasomeProjectBuilder.kt:44 | each key holds the converted value of the last kept metric with that name |
| JasomeImporter.SubstringAfterLast | analysis/import/JasomeImporter/src/main/kotlin/de/maibornwolff/codecharta/importer/jasome/JasomeProjectBuilder.kt:45 | the result is a suffix of the name holding no separator, preceded by a separator unless it is the whole name |
| JasomeImporter.ConvertMetricValue | analysis/import/JasomeImporter/src/main/kotlin/de/maibornwolff/codecharta/importer/jasome/JasomeProjectBuilder.kt:56-58 | a missing value is 0; a value that converts is not empty and is made only of digits, signs, points, commas and exponent markers; the values of integers and of decimals with a comma or a point are stated by `IntegerValue`, `DecimalCommaValue` and `PlainDecimal` |
| JasomeImporter.ConvertPresent | analysis/import/JasomeImporter/src/main/kotlin/de/maibornwolff/codecharta/importer/jasome/JasomeProjectBuilder.kt:57 | a present value is parsed after every comma is replaced by a point |
| JasomeImporter.DecimalCommaValue | analysis/import/JasomeImporter/src/main/kotlin/de/maibornwolff/codecharta/importer/jasome/JasomeProjectBuilder.kt:56-58 | digits, a decimal comma and digits, with or without a minus sign in front (`-1,5`, `12,`), convert to the number the same text with a point writes, negated after the minus |
| JasomeImporter.IntegerValue | analysis/import/JasomeImporter/src/main/kotlin/de/maibornwolff/codecharta/importer/jasome/JasomeProjectBuilder.kt:56-58 | the text of any integer, negative ones included, converts to that integer |
| JasomeImporter.PlainDecimal | analysis/import/JasomeImporter/src/main/kotlin/de/maibornwolff/codecharta/importer/jasome/JasomeProjectBuilder.kt:57 | digits, a point and digits, with or without a minus sign in front, parse to the decimal number they denote |
| JasomeImporter.NotANumber | analysis/import/JasomeImporter/src/main/kotlin/de/maibornwolff/codecharta/importer/jasome/JasomeProjectBuilder.kt:56-58 | a value containing a space fails to convert |

## Left out

- In-place mutation and aliasing. The decorator's passes write into the d3-wrapped objects. The model computes a new tree instead. Each callback reads only its own node, or the leaves, which aggregation never writes, so the result is the same. A node object shared by two parents is not modelled.
- d3 itself (`hierarchy`, `each`, `descendants`, `leaves`, `path`) is modelled by positions (`Hierarchy.At`), a breadth-first list (`Hierarchy.Descendants`) and a left-to-right leaf list (`Hierarchy.Leaves`). A `children` array that is empty and one that is missing are both a leaf, as in d3.
- `PathOf` reads names from the input tree. `each` visits parents before children and never renames, so the paths agree.
- The gitignore-style matcher (`ignore`) and `CodeMapHelper.transformPath` are not part of this model. They are function parameters.
- `MetricService.UNARY_METRIC` is taken to be `"unary"`; `MetricService` is not part of this model.
- Numbers are reals. Floating-point rounding, the order of summation, `NaN` and infinities are not modelled. `Array.sort` with `(a, b) => a - b` is modelled as sorting the values; sorting in place is not modelled because the sorted array is a fresh copy nobody else sees.
- LeafAggregation.Median: its own contract gives bounds; the exact value is stated by `MedianOfSorted`.
- LeafAggregation.AggregateLeafMetric: for a relative metric its own contract gives bounds; the exact median is stated by `RelativeMetric`.
- LeafAggregation.AggregateLeafEdgeMetric: for a relative metric its own contract gives bounds; the exact medians of both halves are stated by `RelativeEdgeMetric`.
- LeafAggregation.TruthyValues: its own contract gives the length bound and that no 0 is kept; what is kept, and in which order, is stated by `TruthyOfOne`, `TruthyAppend` and `TruthyMembers`.
- JasomeImporter.ConvertMetricValue: its own contract gives the characters a convertible value is made of; values are stated for integers (`IntegerValue`) and for signed decimals with a comma or a point (`DecimalCommaValue`, `PlainDecimal`), not for text with an exponent.
- Aggregation.DecorateParentNodesWithAggregatedAttributes: its own contract states the shape and the leaves; the per-node values are stated by `AggregatedAt`, `TotalAt` and `SumOfChildren`.
- Inputs on which the source would throw are preconditions:
  - a package without a metric map;
  - a missing delta map in delta mode;
  - a missing `attributeTypes.nodes` or `attributeTypes.edges` table;
  - a leaf without its maps during aggregation;
  - a leaf without a metric map when metrics are to be added;
  - `preDecorateFile` on a file without a map.
  - `decorateMap` on a `null` map: the first three passes skip it, but the blacklist pass hands it to `hierarchy`, which throws; the model's tree is never null.
- The `blacklist` argument of `decorateParentNodesWithAggregatedAttributes` is unused by the source and by the model.
- `downloadData` (the DOM, `Blob`, `angular.toJson`) is not part of this model. `new Date()` becomes day, month index and year parameters. The settings service's map and blacklist become parameters.
- `loadFiles` (the promise, `FileValidator`, `FileStateService`) is not part of this model.
- The reducer's `rfdc` clone is the identity on values. The render data type is a type parameter.
- Jasome:
  - `PathFactory`, `Path.parent`, `ProjectBuilder.insertByPath` and `build()` are not modelled. Insertions are recorded with the path they would be made under: a package path, or the parent of a package path.
  - `NumberFormatException` becomes a returned error. The builder keeps the insertions made before the error.
  - `BigDecimal` is modelled by its value only: the scale (`1.50` against `1.5`), the exponent's range and non-ASCII digits are not modelled.
  - Kotlin's `isNullOrBlank` is modelled with a fixed set of whitespace code points.
- PagingInfo's getters are not modelled; the fields are the datatype's fields, set by deserialization in the source. `equals`'s identity shortcut gives the same answer as the field comparison.
- FileMetrics's `Serializable` values are a type parameter.
