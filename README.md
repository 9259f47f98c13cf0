# Timeline core in Dafny

This project models the computational core of an interactive world-history
timeline. The timeline is a Flask application. It loads historical events
(title, category, continent, start and end year, optional coordinates), keeps
the events that meet the visible window, and groups dense periods into cluster
markers. It separates long events ("spans") from point events and packs the
spans into non-overlapping lanes. The browser side paints a geological or
historical era behind the view.

The model has one module per concern:

- `Events` (events.dfy): the event record, the `Option` type, an
  order-preserving `Filter` over sequences with its lemmas, and the decimal
  rendering of integers used in cluster ids and titles.
- `StringOrder` (string_order.dfy): the lexicographic order on strings, the
  order `groupby` sorts keys by when the category column holds plain
  strings.
- `Clustering` (clustering.dfy): the five zoom tiers, `get_zoom_tier`,
  `should_cluster` and `cluster_events`. `cluster_events` is a method whose
  loop is proved equal to a specification function, `ClusterSpec`. It
  includes the KeyError raised when a column read by name is missing.
- `ClusteringLemmas` (clustering_lemmas.dfy): properties of that
  specification. The threshold decides between marker and individual rows.
  Hidden rows pass through unchanged. A cluster row spans its bucket. Every
  row is counted exactly once.
- `SpanPacking` (span_packing.dfy): `should_render_as_span`, the greedy lane
  packing `pack_intervals`, and `prepare_spans_and_points`. The lane
  assignment is proved first-fit and overlap-free.
- `Timeline` (timeline.dfy): the frame the generator loads, the merged
  category order, and the generator object whose `get_filtered_data` selects
  the rows meeting a window.
- `Backdrops` (backdrops.dfy): the era table, the era lookup for a year, and
  the controller state that skips a repaint when the era has not changed.

Python integers and years are modelled as unbounded `int`. A missing
(NaN) value is `None`. A pandas frame is a sequence of rows, each carrying
its index label. The JavaScript years are `real`, because the lookup year is
the midpoint of the visible range.

## Model

| member | source | states |
|---|---|---|
| Clustering.ZoomTiersShape | app/clustering.py:12-48 | There are five tiers. Every bucket size is positive and even. Minimum ranges strictly decrease from tier 0 down to 0 at tier 4. |
| Clustering.GetZoomTier | app/clustering.py:50-63 | The scan over the tiers from highest to lowest returns tier 4 for every time range, including negative ones (see Findings). |
| Clustering.IntendedZoomTier | app/clustering.py:50-63 | Corrected tier choice. For a non-negative range, the tier's minimum range is at most the range and the next coarser tier's minimum exceeds it. A negative range gets tier 4. |
| Clustering.ScanTiers | app/clustering.py:60-63 | Scanning from a tier whose coarser neighbour is out of reach returns the first tier reached whose minimum range fits, or 4. |
| Clustering.IntendedZoomTierExamples | app/clustering.py:12-48 | Ranges of 6e8, 1e8, 1e6, 12025 and 50 years select tiers 0, 1, 2, 3 and 4. |
| Clustering.TruncDiv | app/clustering.py:82 | `int(a / b)` truncates toward zero. For non-negative `a` the quotient is the floor. For negative `a` it is the ceiling. |
| Clustering.NumBuckets | app/clustering.py:82 | The bucket count is at least 1. From one bucket size upward it is the largest `n` with `n * bucket_size <= range`. |
| Clustering.ShouldCluster | app/clustering.py:65-85 | Clustering is advised exactly when `event_count > threshold * num_buckets`. |
| Clustering.AboveOnAverage | app/clustering.py:83-85 | The average count per bucket exceeds the threshold exactly when the count exceeds threshold times buckets, so the integer test equals the source's division. |
| Clustering.ShouldClusterExample | app/clustering.py:65-85 | The historical view from -10000 to 2025 at tier 3 has 12 buckets, and 30 events there do not call for clustering. |
| Clustering.MinKey | app/clustering.py:135 | The least group key of a non-empty key list is in it and precedes every other key. |
| Clustering.SortedKeys | app/clustering.py:135 | The group keys visited by `groupby` are strictly sorted by (bucket, category, continent) and are exactly the keys present. |
| Clustering.BucketBounds | app/clustering.py:129 | An event's bucket is the floor of `(year - start) / bucket_size`. Its year lies in `[start + b*size, start + (b+1)*size)`, and years before the window get negative buckets. |
| Clustering.KeysOf | app/clustering.py:135 | A key occurs exactly when some row that has a category, a continent and a year produces it; `groupby` drops the other rows. |
| Clustering.FirstPresent | app/clustering.py:170-178 | The first non-missing value of a group's column is returned, and it is missing only when every member's value is. |
| Clustering.GroupedRows | app/clustering.py:180-191 | Members of a group below the threshold become individual rows, in order, each carrying its bucket. |
| Clustering.PassedRows | app/clustering.py:193-204 | Rows outside the tier's categories become individual rows, in order, without a bucket. |
| Clustering.FirstMemberValue | app/clustering.py:171-178 | The loop over a group's members returns the first present coordinate. |
| Clustering.BuildCluster | app/clustering.py:138-179 | For a group of at least the threshold, the cluster marker and its `cluster_info` entry are built. It fails exactly when the frame lacks one of the eleven columns the entry selects. |
| Clustering.AppendMembers | app/clustering.py:180-191 | The loop appends a small group's members, in order, as individual rows. |
| Clustering.AppendOthers | app/clustering.py:193-204 | The loop appends the rows of hidden categories, in order. |
| Clustering.VisitGroups | app/clustering.py:132-191 | The loop over the sorted group keys fails exactly when the `cluster_info` columns are missing and some group reaches the threshold. Otherwise it produces the specified rows and `cluster_info`. |
| Clustering.ClusterEvents | app/clustering.py:87-215 | The whole operation, including its KeyError, equals its specification for every input and every set of columns. With no rows or clustering disabled it returns the input rows and an empty `cluster_info`, whatever the columns. |
| ClusteringLemmas.ThresholdDecides | app/clustering.py:136-191 | A group gets a marker exactly when it has at least the tier's threshold of members. At or above the threshold the marker occurs exactly once and no member appears as an individual row. Below it every member appears as an individual row with its bucket. |
| ClusteringLemmas.MarkerOnce | app/clustering.py:135-179 | Over distinct keys, a group at or above the threshold contributes its marker exactly once. |
| ClusteringLemmas.ClusteredMembersNotGrouped | app/clustering.py:136-191 | No group emits a member of a clustered group as an individual row. |
| ClusteringLemmas.ShownNotPassed | app/clustering.py:111-116 | A row of a shown category is never among the rows passed through. |
| ClusteringLemmas.MarkerIffSomeClustered | app/clustering.py:135-191 | Some group reaches the threshold exactly when the grouped output holds a cluster row. |
| ClusteringLemmas.KeyErrorExactlyWhenColumnNeeded | app/clustering.py:103-153 | With rows and clustering on, the operation fails exactly when `category` or `continent` is missing, or when the `cluster_info` columns are missing and the run would emit a cluster row. Otherwise it returns the grouped output. |
| ClusteringLemmas.MarkerOnlyAboveThreshold | app/clustering.py:136 | A marker in the output belongs to a group of at least the threshold. |
| ClusteringLemmas.MarkerDeterminesKey | app/clustering.py:138-169 | Two equal marker rows come from the same (bucket, category, continent) key. |
| ClusteringLemmas.ClusterRowSpan | app/clustering.py:138-143 | Every member's year lies in the marker's bucket. The marker ends at the bucket's end or the window's end, whichever is first. Its year is the bucket's midpoint. |
| ClusteringLemmas.MarkerYears | app/clustering.py:138-143 | The marker's start, end and year follow from its bucket, the window's end and half the bucket size. |
| ClusteringLemmas.ClusterRowCoordinates | app/clustering.py:170-178 | The marker's latitude and longitude are those of the first member that has them, and are missing only when no member has them. |
| ClusteringLemmas.HiddenRowsNeverClustered | app/clustering.py:110-116 | `cluster_info` lists only rows of the tier's categories, and every marker has one of them. The rows of other categories form the tail of the output, unchanged and in order. |
| ClusteringLemmas.InfoListsShownRows | app/clustering.py:146-154 | Every event listed in `cluster_info` belongs to a shown category. |
| ClusteringLemmas.GroupsPartition | app/clustering.py:135 | Over distinct keys covering every groupable row, the group sizes add up to the number of groupable rows. |
| ClusteringLemmas.EmitGroupsIndividuals | app/clustering.py:180-191 | The individual rows emitted for groups number exactly the members of the groups below the threshold. |
| ClusteringLemmas.InfoOfSums | app/clustering.py:146-154 | With distinct cluster ids, the `event_count`s in `cluster_info` add up to the sizes of the groups at or above the threshold. |
| ClusteringLemmas.Conservation | app/clustering.py:87-215 | Every input row is accounted for exactly once: counted in `cluster_info`, emitted as an individual row, or dropped by `groupby` for a missing category or continent. |
| ClusteringLemmas.IntToStringInjective | app/clustering.py:140 | Distinct bucket numbers render as distinct decimal strings. |
| ClusteringLemmas.ClusterIdsDistinct | app/clustering.py:140 | Distinct keys get distinct cluster ids when categories contain no underscore. |
| ClusteringLemmas.ClusterIdsCanCollide | app/clustering.py:140 | Two distinct keys in one bucket, ("a_b", "c") and ("a", "b_c"), get the same cluster id. |
| ClusteringLemmas.IdsInjectiveWhenCategoriesPlain | app/clustering.py:140 | Distinct keys whose categories contain no underscore have pairwise distinct ids. |
| SpanPacking.ShouldRenderAsSpan | app/span_packing.py:11-43 | An event is a span exactly when both years are known and its duration is nonzero and at least the threshold. The default threshold is the smaller of 0.1% of the range and 1000 years. |
| SpanPacking.Insert | app/span_packing.py:60 | Inserting a position into a sorted list keeps it sorted by (start, duration, position) and adds exactly that position. |
| SpanPacking.SortFirst | app/span_packing.py:60 | The first `n` positions, sorted by start, then duration, then position. |
| SpanPacking.ProcessingOrder | app/span_packing.py:60 | The processing order is a permutation of the positions, sorted by start, then duration, with ties in input order as Python's stable sort leaves them. |
| SpanPacking.FirstFree | app/span_packing.py:72-77 | The chosen lane is the first whose last end is at most the start. Every earlier lane ends after it. It equals the lane count when all lanes are busy. |
| SpanPacking.TakeLane | app/span_packing.py:70-82 | The inner loop picks the first free lane and records the new end, or opens a new lane. |
| SpanPacking.Run | app/span_packing.py:66-84 | After `t` steps, exactly `t` lanes have been handed out. |
| SpanPacking.PackIntervals | app/span_packing.py:45-86 | The method's lane map equals the packing specification, and is empty for no intervals. |
| SpanPacking.RunKeys | app/span_packing.py:84 | After `t` steps the map's keys are exactly the first `t` processed positions. |
| SpanPacking.RunHistory | app/span_packing.py:66-82 | The lane given at each step is the first lane free at that step. |
| SpanPacking.NoOverlapSteps | app/span_packing.py:72-82 | For intervals that end no earlier than they start, in any processing order, two steps given the same lane hold intervals where the earlier ends no later than the later starts. |
| SpanPacking.FirstFitSteps | app/span_packing.py:72-77 | Every lane below the one a step got was occupied by an earlier step whose interval ends after this one starts. |
| SpanPacking.StepOf | app/span_packing.py:56-86 | Every position is processed at some step and its lane is the one given at that step. |
| SpanPacking.PackDomain | app/span_packing.py:56-86 | The lane map has exactly the input positions as keys. |
| SpanPacking.PackLanesContiguous | app/span_packing.py:80-82 | Lanes used are exactly 0 up to the number of lanes opened, with no gap. |
| SpanPacking.PackFirstFit | app/span_packing.py:72-77 | Every lower lane holds an interval processed earlier that overlaps this one's start. |
| SpanPacking.NoOverlapSorted | app/span_packing.py:72-82 | Along the sorted processing order, two steps given the same lane hold intervals where the earlier ends no later than the later starts, reversed intervals included. |
| SpanPacking.PackNoOverlap | app/span_packing.py:72-84 | Any two intervals on the same lane, reversed ones included, do not overlap: the one processed first ends no later than the other starts. |
| SpanPacking.PackExample | app/span_packing.py:45-86 | (100,200), (150,250), (210,300) get lanes 0, 1, 0. |
| SpanPacking.SpanRows | app/span_packing.py:106-116 | The span rows, in order, all have both years known. |
| SpanPacking.SeparateSpans | app/span_packing.py:105-116 | The loop over the rows yields the span rows, their intervals and the point rows. |
| SpanPacking.SeparateStep | app/span_packing.py:106-116 | Each row goes to exactly one of spans and points. |
| SpanPacking.AttachLanes | app/span_packing.py:119-122 | The loop sets every span's lane by label lookup. |
| SpanPacking.SpansAndPointsPartition | app/span_packing.py:106-127 | Spans and points partition the rows by the span test. |
| SpanPacking.PrepareSpansAndPoints | app/span_packing.py:88-129 | The points, the lane map and the span entries equal their specifications. |
| SpanPacking.LabelLookupStacksOverlaps | app/span_packing.py:119-122 | Rows labelled 5 and 7 spanning (0,100) and (50,150) both end up on lane 0 while overlapping (see Findings). |
| SpanPacking.ByPositionNoOverlap | app/span_packing.py:88-129 | With the corrected lookup, two spans on the same lane never overlap. |
| SpanPacking.LookupAgreesWhenLabelsArePositions | app/span_packing.py:119-122 | When span labels equal their positions, the label lookup and the position lookup agree. |
| Timeline.DataCategories | app/timeline.py:113 | The distinct non-missing categories, in first-seen order, are exactly those that occur. |
| Timeline.MergeCategoryOrder | app/timeline.py:109-122 | The comprehension and loop build the predefined categories present in the data, in predefined order, then the other data categories in first-seen order. |
| Timeline.MergeStep | app/timeline.py:118-120 | A data category is already listed exactly when it is predefined, so the loop appends exactly the others. |
| Timeline.MergedOrderListsEachCategoryOnce | app/timeline.py:109-122 | The merged order lists every data category exactly once and nothing else. |
| Timeline.PredefinedCategoriesFirst | app/timeline.py:116-120 | Predefined categories come before all others. |
| Timeline.PredefinedInConfiguredOrder | app/timeline.py:116 | Predefined categories keep the configured order. |
| Timeline.OtherCategoriesInFirstSeenOrder | app/timeline.py:113-120 | Other categories appear in the order the data first mentions them. |
| Timeline.FirstSeen | app/timeline.py:113 | An earlier distinct category is first mentioned by a row before any mention of a later one. |
| Timeline.DataCategoriesExample | app/timeline.py:113 | war, none, era, war gives war then era. |
| Timeline.LoadedRows | app/timeline.py:74-96 | Both year columns exist, rows are labelled by position, `year` equals `start_year`, a missing column is missing on every row, and nothing else changes. |
| Timeline.LoadedCategoryOrder | app/timeline.py:109-122 | A category order is set exactly when the data is non-empty and has a category column. It lists each category occurring in a record once. |
| Timeline.CategoryOrderDistinct | config.py:28 | The configured category order has no repeats. |
| Timeline.WindowIsOverlap | app/timeline.py:135-141 | For a well-formed event and window, the mask holds exactly when the closed intervals share a year. |
| Timeline.TimelineGenerator.constructor | app/timeline.py:29-40 | A new generator holds the frame loaded from its source. |
| Timeline.TimelineGenerator.LoadData | app/timeline.py:42-128 | Loading replaces the frame with the normalised one. |
| Timeline.TimelineGenerator.GetFilteredData | app/timeline.py:130-142 | An empty frame or missing year column gives no rows. Otherwise every row returned is in the frame and meets the window. |
| Timeline.FilteredDataKeeps | app/timeline.py:135-142 | Every frame row that meets the window is returned. |
| Timeline.FilteredDataInOrder | app/timeline.py:142 | The rows returned keep the frame's order. |
| Timeline.FilteredLabelsArePositionsInFrame | app/timeline.py:142 | The labels of returned rows are their positions in the loaded frame and strictly increase, so they need not be positions in the result. |
| Backdrops.BackdropsContiguous | static/js/backdrops.js:9-59 | Every era is non-empty and ends where the next starts, from -5e9 to 1e10. |
| Backdrops.FirstMatch | static/js/backdrops.js:70-78 | The first entry covering the year, or the first entry when none does. |
| Backdrops.GetBackdropForYear | static/js/backdrops.js:70-78 | The loop returns the era the lookup specifies. |
| Backdrops.CoveredOnce | static/js/backdrops.js:70-78 | In a contiguous table, a year inside its span is covered by exactly one era. |
| Backdrops.NoneOutside | static/js/backdrops.js:70-78 | In a contiguous table, no era covers a year outside its span. |
| Backdrops.EarlierEndsFirst | static/js/backdrops.js:9-59 | In a contiguous table, an earlier era ends no later than a later one starts. |
| Backdrops.InRangeGetsItsEra | static/js/backdrops.js:70-75 | A year from -5e9 up to 1e10 gets the one era covering it. |
| Backdrops.OutOfRangeFallsBack | static/js/backdrops.js:76-77 | Other years fall back to the Hadean. |
| Backdrops.BoundaryBelongsToLaterEra | static/js/backdrops.js:72 | A boundary year belongs to the era starting there. |
| Backdrops.ArcheanStartsAtFourBillion | static/js/backdrops.js:72 | -4e9 shows the Archean. |
| Backdrops.DefaultIsProterozoic | static/js/backdrops.js:140 | The default year -2.5e9 shows the Proterozoic. |
| Backdrops.NamesIdentifyEras | static/js/backdrops.js:9-59 | No two eras share a name. |
| Backdrops.SameNameSameEra | static/js/backdrops.js:87 | Comparing names compares eras. |
| Backdrops.BackdropController.constructor | static/js/backdrops.js:61 | No era is current and nothing is painted. |
| Backdrops.BackdropController.InitBackdrops | static/js/backdrops.js:136-153 | Without both layers nothing changes. Otherwise the default era is painted and becomes current. |
| Backdrops.BackdropController.SetBackdropForYear | static/js/backdrops.js:83-91 | Afterwards the era of the midpoint is current. With the same name nothing is repainted. Otherwise its name is painted. |

## Left out

- Plotly figure building (`make_figure_json`, app/timeline.py:144-489) is not part of this model. It is presentation.
- CSV and database reading, `to_datetime` of the date columns, `reload_data` and debug printing are not part of this model. They are I/O. The loaded table is a `Table` parameter whose column flags say which columns exist.
- The `try/except` around the categorical conversion (app/timeline.py:110-127) is not modelled. Building the merged order cannot fail in the model.
- `pd.to_numeric(errors='coerce')` is not modelled: years are already integers or missing.
- The routes, the ORM models, the maintenance scripts and `run.py` are not part of this model. The configured category order from config.py is inlined as `Timeline.CategoryOrder`.
- main.js and starfield.js are not part of this model. Neither are the backdrops' DOM styles, gradients and images, `matchMedia`, the crossfade `setTimeout` toggle of the active layer, or `setBackdropForYear` before the layers exist. `painted` stands for the style writes. A NaN year passed to `getBackdropForYear` cannot be represented, because years are `real`. The script falls back to the Hadean (`BACKDROPS[0]`) for it, as it does for an out-of-range year.
- Latitude and longitude are opaque reals, compared only for presence.
- The `year` fill-ins of cluster_events (app/clustering.py:119-124, 185-190, 198-203, 208-213) are not modelled. After loading, `year` always exists and equals `start_year`.
- The `get_zoom_tier` call at app/span_packing.py:37 is not modelled. Its result is unused.
- SpanPacking.ShouldRenderAsSpan: the default threshold `time_range * 0.001` is compared exactly as `1000 * d >= time_range`, and a caller's float threshold is a `real`. NaN durations and float rounding are not modelled.
- Clustering.ClusterEvents: requires every row of a shown category to have a year. In the source a missing year fails the integer bucket conversion.
- ClusteringLemmas.Conservation: holds only when cluster ids are pairwise distinct. A category or continent containing `_` can make two groups share an id (`ClusteringLemmas.ClusterIdsCanCollide`), and then one `cluster_info` entry overwrites the other.
- ClusteringLemmas.ClusterRowSpan and Clustering.MarkerFor: `bucket_size / 2` is a float in the source. Every tier's bucket size is even, so `MarkerFor` uses integer halving.
- Clustering.SortedKeys: groups are visited in (bucket, category, continent) order with categories compared as strings. The loaded frame makes `category` an ordered categorical in the merged category order (app/timeline.py:122), and `groupby` then visits a bucket's categories in that order (e.g. "era" before "civilization" at tier 1). The model's output lists the same groups, but possibly in another order. `cluster_events` has no caller here that depends on the order. The empty groups that a categorical column adds to `groupby` emit nothing and are not modelled.
- Clustering.ClusterSpec: a missing column is a flag in `Columns`, and the rows still carry every field (an absent value is `None`). The `'lat' in event_row` checks at app/clustering.py:172 and 176 need no flag of their own: a frame without `lat` or `lon` has already failed at line 152.
- Clustering.BuildCluster: a `cluster_info` entry keeps each member's whole `Event`, while the source keeps only the eleven columns it selects (app/clustering.py:152-153). The entry therefore also carries `year`, which the source drops. `Event` has no `location_label`, `geometry` or `location_confidence` fields: these are display data that nothing here reads. No contract depends on the difference.

## Findings

| source | as written | input that shows it | evidently intended | confidence | as-written member | corrected member |
|---|---|---|---|---|---|---|
| app/clustering.py:60-63 | Tiers are scanned from 4 down, and tier 4's minimum range is 0, so every non-negative range returns tier 4. | `get_zoom_tier(600000000)` returns 4. | The coarsest tier whose minimum range the range reaches, here tier 0. | not executed | Clustering.GetZoomTier | Clustering.IntendedZoomTier |
| app/span_packing.py:122 | The lanes are looked up by the row's index label, but `pack_intervals` keys them by position among the spans. | Rows labelled 5 and 7 with years (0,100) and (50,150), range 1000: both get lane 0 and overlap. | Each span takes the lane packed for its position, so spans on a lane never overlap. | not executed | SpanPacking.LabelLookupStacksOverlaps | SpanPacking.ByPositionNoOverlap |
