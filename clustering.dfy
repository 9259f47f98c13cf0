/**
 * Semantic zoom and clustering (app/clustering.py): the five zoom tiers,
 * tier selection, the average-per-bucket pre-check, and the grouping of
 * events into (bucket, category, continent) groups that become either one
 * synthetic cluster row or the group's individual rows.
 */
module Clustering {
  import opened Events
  import opened StringOrder

  // ---------------------------------------------------------------------
  // Zoom tiers
  // ---------------------------------------------------------------------

  /** One entry of ZOOM_TIERS. `showCategories == None` means every
      category takes part in clustering. */
  datatype TierConfig = TierConfig(
    minRange: int,
    bucketSize: int,
    showCategories: Option<seq<string>>,
    labelDensity: string,
    clusterThreshold: int)

  type TierId = t: int | 0 <= t < 5

  const ZoomTiers: seq<TierConfig> := [
    TierConfig(500_000_000, 50_000_000, Some(["era"]), "sparse", 5),
    TierConfig(50_000_000, 5_000_000, Some(["era", "civilization"]), "medium", 10),
    TierConfig(500_000, 500_000, Some(["era", "civilization", "empire"]), "medium", 15),
    TierConfig(5_000, 1_000, None, "dense", 20),
    TierConfig(0, 100, None, "very_dense", 25)
  ]

  /** The facts about the table the rest of the model relies on: bucket
      sizes are positive and even (so `bucket_size / 2` is exact), minimum
      ranges are non-negative and strictly decrease with the tier number. */
  lemma ZoomTiersShape()
    ensures |ZoomTiers| == 5
    ensures forall t: TierId :: ZoomTiers[t].bucketSize > 0 && ZoomTiers[t].bucketSize % 2 == 0
    ensures forall t: TierId :: ZoomTiers[t].minRange >= 0
    ensures forall t: TierId :: t < 4 ==> ZoomTiers[t + 1].minRange < ZoomTiers[t].minRange
    ensures ZoomTiers[4].minRange == 0
  {
  }

  /** get_zoom_tier as written: tiers are visited 4, 3, 2, 1, 0 and the first
      whose minimum range is reached wins. Tier 4's minimum range is 0, so a
      non-negative range stops at tier 4, and a negative one reaches the
      fallback, which is 4 as well. */
  method GetZoomTier(timeRange: int) returns (tier: TierId)
    ensures tier == 4
  {
    var t := 4;
    while t >= 0
      invariant -1 <= t <= 4
      invariant t < 4 ==> timeRange < 0
    {
      if timeRange >= ZoomTiers[t].minRange {
        return t;
      }
      t := t - 1;
    }
    return 4;
  }

  /** The tier the table's comments describe: the coarsest tier whose
      minimum range the visible range reaches, scanning 0, 1, 2, 3, 4. */
  function IntendedZoomTier(timeRange: int): (tier: TierId)
    ensures timeRange >= 0 ==> ZoomTiers[tier].minRange <= timeRange
    ensures timeRange >= 0 && tier > 0 ==> timeRange < ZoomTiers[tier - 1].minRange
    ensures timeRange < 0 ==> tier == 4
  {
    ScanTiers(0, timeRange)
  }

  function ScanTiers(from: TierId, timeRange: int): (tier: TierId)
    requires from > 0 ==> timeRange < ZoomTiers[from - 1].minRange
    ensures from <= tier
    ensures timeRange >= 0 ==> ZoomTiers[tier].minRange <= timeRange
    ensures tier > 0 ==> timeRange < ZoomTiers[tier - 1].minRange
    ensures timeRange < 0 ==> tier == 4
    decreases 4 - from
  {
    if from == 4 || timeRange >= ZoomTiers[from].minRange then from
    else ScanTiers(from + 1, timeRange)
  }

  /** The intended tier at a few ranges, against the as-written 4. */
  lemma IntendedZoomTierExamples()
    ensures IntendedZoomTier(600_000_000) == 0
    ensures IntendedZoomTier(100_000_000) == 1
    ensures IntendedZoomTier(1_000_000) == 2
    ensures IntendedZoomTier(12_025) == 3
    ensures IntendedZoomTier(50) == 4
  {
  }

  // ---------------------------------------------------------------------
  // Average-per-bucket pre-check
  // ---------------------------------------------------------------------

  /** `int(a / b)` for a positive `b`: the quotient truncated toward zero. */
  function TruncDiv(a: int, b: int): (q: int)
    requires b > 0
    ensures a >= 0 ==> 0 <= q && q * b <= a < (q + 1) * b
    ensures a < 0 ==> q <= 0 && (q - 1) * b < a <= q * b
  {
    if a >= 0 then
      TruncNonNegative(a, b);
      a / b
    else
      TruncNegative(a, b);
      -((-a) / b)
  }

  lemma TruncNonNegative(a: nat, b: int)
    requires b > 0
    ensures 0 <= a / b && (a / b) * b <= a < (a / b + 1) * b
  {
    assert a == (a / b) * b + a % b;
  }

  lemma TruncNegative(a: int, b: int)
    requires a < 0 && b > 0
    ensures var q := -((-a) / b);
      q <= 0 && (q - 1) * b < a <= q * b
  {
    var m := -a;
    assert m == (m / b) * b + m % b;
    var q := -(m / b);
    assert q * b == -((m / b) * b);
    assert (q - 1) * b == q * b - b;
  }

  /** `num_buckets = max(1, int(time_range / bucket_size))`. */
  function NumBuckets(tier: TierId, timeRange: int): (n: int)
    ensures n >= 1
    ensures timeRange >= ZoomTiers[tier].bucketSize ==>
      n * ZoomTiers[tier].bucketSize <= timeRange < (n + 1) * ZoomTiers[tier].bucketSize
    ensures timeRange < ZoomTiers[tier].bucketSize ==> n == 1
  {
    var bs := ZoomTiers[tier].bucketSize;
    var q := TruncDiv(timeRange, bs);
    if q < 1 then 1 else q
  }

  /** should_cluster: the average number of events per bucket strictly
      exceeds the tier's threshold. The division happens on reals, as the
      source divides floats; the contract states it on integers. */
  function ShouldCluster(tier: TierId, eventCount: nat, timeRange: int): (r: bool)
    ensures r <==> eventCount > ZoomTiers[tier].clusterThreshold * NumBuckets(tier, timeRange)
  {
    var numBuckets := NumBuckets(tier, timeRange);
    var avgPerBucket := if numBuckets > 0 then (eventCount as real) / (numBuckets as real) else 0.0;
    var threshold := ZoomTiers[tier].clusterThreshold;
    AboveOnAverage(eventCount, numBuckets, threshold);
    avgPerBucket > threshold as real
  }

  lemma AboveOnAverage(count: nat, n: int, threshold: int)
    requires n >= 1
    ensures (count as real) / (n as real) > threshold as real <==> count > threshold * n
  {
    var avg := (count as real) / (n as real);
    assert avg * (n as real) == count as real;
    if avg > threshold as real {
      assert avg * (n as real) > (threshold as real) * (n as real);
    } else {
      assert avg * (n as real) <= (threshold as real) * (n as real);
    }
  }

  /** A 12025-year window at tier 3 holds 12 buckets; 30 events average 2.5
      per bucket, below 20, so clustering is skipped. */
  lemma ShouldClusterExample()
    ensures NumBuckets(3, 2025 - (-10000)) == 12
    ensures !ShouldCluster(3, 30, 2025 - (-10000))
  {
  }

  // ---------------------------------------------------------------------
  // Group keys and their order
  // ---------------------------------------------------------------------

  /** A groupby key: (bucket, category, continent). */
  datatype Key = Key(bucket: int, category: string, continent: string)

  /** pandas sorts tuple keys lexicographically: bucket, then category, then
      continent, the strings in Python's order. */
  predicate KeyLt(a: Key, b: Key) {
    a.bucket < b.bucket
    || (a.bucket == b.bucket
        && (StrLt(a.category, b.category)
            || (a.category == b.category && StrLt(a.continent, b.continent))))
  }

  lemma KeyLtIrreflexive(a: Key)
    ensures !KeyLt(a, a)
  {
    StrLtIrreflexive(a.category);
    StrLtIrreflexive(a.continent);
  }

  lemma KeyLtTransitive(a: Key, b: Key, c: Key)
    requires KeyLt(a, b) && KeyLt(b, c)
    ensures KeyLt(a, c)
  {
    if StrLt(a.category, b.category) && StrLt(b.category, c.category) {
      StrLtTransitive(a.category, b.category, c.category);
    }
    if StrLt(a.continent, b.continent) && StrLt(b.continent, c.continent) {
      StrLtTransitive(a.continent, b.continent, c.continent);
    }
  }

  lemma KeyLtTotal(a: Key, b: Key)
    requires a != b
    ensures KeyLt(a, b) || KeyLt(b, a)
  {
    if a.category != b.category {
      StrLtTotal(a.category, b.category);
    }
    if a.continent != b.continent {
      StrLtTotal(a.continent, b.continent);
    }
  }

  ghost predicate StrictlySorted(ks: seq<Key>) {
    forall i, j :: 0 <= i < j < |ks| ==> KeyLt(ks[i], ks[j])
  }

  /** The least key of a non-empty sequence. */
  function MinKey(ks: seq<Key>): (m: Key)
    requires ks != []
    ensures m in ks
    ensures forall k :: k in ks ==> k == m || KeyLt(m, k)
  {
    if |ks| == 1 then ks[0]
    else
      var rest := MinKey(ks[1..]);
      if KeyLt(ks[0], rest) then
        assert forall k :: k in ks[1..] ==> KeyLt(ks[0], k) by {
          forall k | k in ks[1..] && k != rest ensures KeyLt(ks[0], k) {
            KeyLtTransitive(ks[0], rest, k);
          }
        }
        ks[0]
      else
        assert ks[0] == rest || KeyLt(rest, ks[0]) by {
          if ks[0] != rest { KeyLtTotal(ks[0], rest); }
        }
        rest
  }

  function Without(ks: seq<Key>, m: Key): (r: seq<Key>)
    ensures forall k :: k in r <==> k in ks && k != m
    ensures m in ks ==> |r| < |ks|
    ensures |r| <= |ks|
  {
    if ks == [] then []
    else (if ks[0] == m then [] else [ks[0]]) + Without(ks[1..], m)
  }

  /** The distinct keys of `ks` in ascending order: the order in which
      `groupby` hands out its groups. */
  function SortedKeys(ks: seq<Key>): (r: seq<Key>)
    ensures forall k :: k in r <==> k in ks
    ensures StrictlySorted(r)
    decreases |ks|
  {
    if ks == [] then []
    else
      var m := MinKey(ks);
      var rest := SortedKeys(Without(ks, m));
      PrependLeast(ks, m, rest);
      [m] + rest
  }

  lemma PrependLeast(ks: seq<Key>, m: Key, rest: seq<Key>)
    requires ks != [] && m == MinKey(ks)
    requires StrictlySorted(rest) && forall k :: k in rest ==> k in ks && k != m
    ensures StrictlySorted([m] + rest)
  {
    forall i, j | 0 <= i < j < |[m] + rest|
      ensures KeyLt(([m] + rest)[i], ([m] + rest)[j])
    {
      if i == 0 {
        assert rest[j - 1] in rest;
      } else {
        assert ([m] + rest)[i] == rest[i - 1] && ([m] + rest)[j] == rest[j - 1];
      }
    }
  }

  lemma StrictlySortedDistinct(ks: seq<Key>)
    requires StrictlySorted(ks)
    ensures forall i, j :: 0 <= i < j < |ks| ==> ks[i] != ks[j]
  {
    forall i, j | 0 <= i < j < |ks| ensures ks[i] != ks[j] {
      if ks[i] == ks[j] {
        KeyLtIrreflexive(ks[i]);
      }
    }
  }

  // ---------------------------------------------------------------------
  // Bucketing and grouping
  // ---------------------------------------------------------------------

  /** `(year - start_year) // bucket_size`: floor division. */
  function Bucket(year: int, startYear: int, bucketSize: int): int
    requires bucketSize > 0
  {
    (year - startYear) / bucketSize
  }

  /** A row's bucket is the bucket-sized interval, counted from the window
      start, that holds its year; before the window start it is negative. */
  lemma BucketBounds(year: int, startYear: int, bucketSize: int)
    requires bucketSize > 0
    ensures var b := Bucket(year, startYear, bucketSize);
      startYear + b * bucketSize <= year < startYear + (b + 1) * bucketSize
    ensures year < startYear ==> Bucket(year, startYear, bucketSize) < 0
  {
    var d := year - startYear;
    var b := d / bucketSize;
    assert d == b * bucketSize + d % bucketSize;
    assert (b + 1) * bucketSize == b * bucketSize + bucketSize;
  }

  /** Whether the tier's category filter lets the row into clustering
      (`isin` is false for a missing category). */
  predicate InShown(tc: TierConfig, e: Event) {
    tc.showCategories.None? || (e.category.Some? && e.category.value in tc.showCategories.value)
  }

  function ShownP(tc: TierConfig): Event -> bool { e => InShown(tc, e) }

  function HiddenP(tc: TierConfig): Event -> bool { e => !InShown(tc, e) }

  /** `df_filtered`: the rows whose category the tier clusters. */
  function Shown(tc: TierConfig, rows: seq<Event>): seq<Event> { Filter(rows, ShownP(tc)) }

  /** `df_other`: the remaining rows (none when the tier has no filter). */
  function Hidden(tc: TierConfig, rows: seq<Event>): seq<Event> { Filter(rows, HiddenP(tc)) }

  /** Rows that take part in `groupby`: it drops rows whose category or
      continent is missing. A missing year never gets this far (it fails
      the conversion to int), so the clustering operations require it. */
  predicate Groupable(e: Event) {
    e.category.Some? && e.continent.Some? && e.year.Some?
  }

  predicate NotGroupable(e: Event) { !Groupable(e) }

  function KeyOf(e: Event, startYear: int, bucketSize: int): Key
    requires Groupable(e) && bucketSize > 0
  {
    Key(Bucket(e.year.value, startYear, bucketSize), e.category.value, e.continent.value)
  }

  predicate InGroup(e: Event, k: Key, startYear: int, bucketSize: int) {
    bucketSize > 0 && Groupable(e) && KeyOf(e, startYear, bucketSize) == k
  }

  function InGroupP(k: Key, startYear: int, bucketSize: int): Event -> bool {
    e => InGroup(e, k, startYear, bucketSize)
  }

  /** The members of group `k`, in row order. */
  function Group(rows: seq<Event>, k: Key, startYear: int, bucketSize: int): seq<Event> {
    Filter(rows, InGroupP(k, startYear, bucketSize))
  }

  /** The key of every groupable row, in row order (with repetitions). */
  function KeysOf(rows: seq<Event>, startYear: int, bucketSize: int): (r: seq<Key>)
    requires bucketSize > 0
    ensures forall k :: k in r <==> exists e :: e in rows && Groupable(e) && KeyOf(e, startYear, bucketSize) == k
  {
    if rows == [] then []
    else
      (if Groupable(rows[0]) then [KeyOf(rows[0], startYear, bucketSize)] else [])
      + KeysOf(rows[1..], startYear, bucketSize)
  }

  /** The keys `groupby` visits, ascending. */
  function GroupKeys(rows: seq<Event>, startYear: int, bucketSize: int): seq<Key>
    requires bucketSize > 0
  {
    SortedKeys(KeysOf(rows, startYear, bucketSize))
  }

  // ---------------------------------------------------------------------
  // Output rows
  // ---------------------------------------------------------------------

  /** The synthetic row that stands for a whole group (`is_cluster` true). */
  datatype ClusterRow = ClusterRow(
    id: string,
    title: string,
    category: string,
    continent: string,
    startYear: int,
    endYear: int,
    year: int,
    description: string,
    lat: Option<real>,
    lon: Option<real>,
    clusterId: string)

  /** One entry of `cluster_info`. `events` holds the member rows. */
  datatype ClusterInfo = ClusterInfo(
    bucketStart: int,
    bucketEnd: int,
    category: string,
    continent: string,
    eventCount: nat,
    events: seq<Event>)

  datatype Item =
    | Original(ev: Event)                       // the input row, returned untouched
    | Individual(ev: Event, bucket: Option<int>) // an input row with is_cluster = False
    | Marker(row: ClusterRow)                    // a cluster row

  datatype ClusterOutput = ClusterOutput(items: seq<Item>, info: map<string, ClusterInfo>)

  /** The columns of the frame that cluster_events reads by name: `category`
      and `continent` (the category filter and the grouping), and the eleven
      columns copied into each `cluster_info` entry (id, title, start_year,
      end_year, category, continent, lat, lon, location_label, geometry,
      location_confidence). A frame built from the database rows has no
      location columns, and a CSV column empty on every row is dropped. */
  datatype Columns = Columns(hasCategory: bool, hasContinent: bool, hasInfoColumns: bool)

  /** cluster_events either returns its two results or stops with the
      KeyError pandas raises for a column it selects that is absent. */
  datatype ClusterResult = Clustered(out: ClusterOutput) | KeyError

  /** The first present value, scanning in order. */
  function FirstPresent(vs: seq<Option<real>>): (r: Option<real>)
    ensures r.None? <==> forall i :: 0 <= i < |vs| ==> vs[i].None?
    ensures r.Some? ==> exists i :: 0 <= i < |vs| && vs[i] == r && forall j :: 0 <= j < i ==> vs[j].None?
  {
    if vs == [] then None
    else if vs[0].Some? then vs[0]
    else
      var r := FirstPresent(vs[1..]);
      assert r.Some? ==> exists i :: 1 <= i < |vs| && vs[i] == r && forall j :: 0 <= j < i ==> vs[j].None? by {
        if r.Some? {
          var i :| 0 <= i < |vs[1..]| && vs[1..][i] == r && forall j :: 0 <= j < i ==> vs[1..][j].None?;
          assert vs[i + 1] == r;
        }
      }
      r
  }

  function Lats(g: seq<Event>): (r: seq<Option<real>>)
    ensures |r| == |g| && forall i :: 0 <= i < |g| ==> r[i] == g[i].lat
  {
    seq(|g|, i requires 0 <= i < |g| => g[i].lat)
  }

  function Lons(g: seq<Event>): (r: seq<Option<real>>)
    ensures |r| == |g| && forall i :: 0 <= i < |g| ==> r[i] == g[i].lon
  {
    seq(|g|, i requires 0 <= i < |g| => g[i].lon)
  }

  /** `f"cluster_{bucket}_{category}_{continent}"`. */
  function ClusterIdOf(k: Key): string {
    "cluster_" + IntToString(k.bucket) + "_" + k.category + "_" + k.continent
  }

  function BucketStart(k: Key, startYear: int, bucketSize: int): int {
    startYear + k.bucket * bucketSize
  }

  function BucketEnd(k: Key, startYear: int, endYear: int, bucketSize: int): int {
    Min(endYear, BucketStart(k, startYear, bucketSize) + bucketSize)
  }

  /** The cluster row for group `k` with `g` its members. */
  function MarkerFor(k: Key, g: seq<Event>, startYear: int, endYear: int, bucketSize: int): ClusterRow {
    var bucketStart := BucketStart(k, startYear, bucketSize);
    var id := ClusterIdOf(k);
    ClusterRow(
      id,
      IntToString(|g|) + " events",
      k.category,
      k.continent,
      bucketStart,
      BucketEnd(k, startYear, endYear, bucketSize),
      bucketStart + bucketSize / 2,
      "Cluster: " + IntToString(|g|) + " events in " + k.category + " category",
      FirstPresent(Lats(g)),
      FirstPresent(Lons(g)),
      id)
  }

  function InfoFor(k: Key, g: seq<Event>, startYear: int, endYear: int, bucketSize: int): ClusterInfo {
    ClusterInfo(
      BucketStart(k, startYear, bucketSize),
      BucketEnd(k, startYear, endYear, bucketSize),
      k.category,
      k.continent,
      |g|,
      g)
  }

  /** Members of a group kept as individual rows; they carry their bucket. */
  function GroupedRows(g: seq<Event>, startYear: int, bucketSize: int): (r: seq<Item>)
    requires bucketSize > 0 && forall e :: e in g ==> e.year.Some?
    ensures |r| == |g|
    ensures forall i :: 0 <= i < |g| ==>
      r[i] == Individual(g[i], Some(Bucket(g[i].year.value, startYear, bucketSize)))
  {
    if g == [] then []
    else
      GroupedRows(g[..|g| - 1], startYear, bucketSize)
      + [Individual(g[|g| - 1], Some(Bucket(g[|g| - 1].year.value, startYear, bucketSize)))]
  }

  /** Rows outside the tier's categories, kept as individual rows. */
  function PassedRows(o: seq<Event>): (r: seq<Item>)
    ensures |r| == |o|
    ensures forall i :: 0 <= i < |o| ==> r[i] == Individual(o[i], None)
  {
    if o == [] then [] else PassedRows(o[..|o| - 1]) + [Individual(o[|o| - 1], None)]
  }

  /** The input returned as it is. */
  function Originals(rows: seq<Event>): (r: seq<Item>)
    ensures |r| == |rows|
    ensures forall i :: 0 <= i < |rows| ==> r[i] == Original(rows[i])
  {
    seq(|rows|, i requires 0 <= i < |rows| => Original(rows[i]))
  }

  /** What one group contributes to the output. */
  function EmitGroup(k: Key, shown: seq<Event>, startYear: int, endYear: int, tc: TierConfig): seq<Item>
    requires tc.bucketSize > 0
  {
    var g := Group(shown, k, startYear, tc.bucketSize);
    if |g| >= tc.clusterThreshold then [Marker(MarkerFor(k, g, startYear, endYear, tc.bucketSize))]
    else GroupedRows(g, startYear, tc.bucketSize)
  }

  function EmitGroups(ks: seq<Key>, shown: seq<Event>, startYear: int, endYear: int, tc: TierConfig): seq<Item>
    requires tc.bucketSize > 0
  {
    if ks == [] then []
    else
      EmitGroups(ks[..|ks| - 1], shown, startYear, endYear, tc)
      + EmitGroup(ks[|ks| - 1], shown, startYear, endYear, tc)
  }

  /** `cluster_info` after visiting the groups `ks` in order; a later group
      with the same id overwrites an earlier entry, as a dict does. */
  function InfoOf(ks: seq<Key>, shown: seq<Event>, startYear: int, endYear: int, tc: TierConfig): map<string, ClusterInfo>
    requires tc.bucketSize > 0
  {
    if ks == [] then map[]
    else
      var m := InfoOf(ks[..|ks| - 1], shown, startYear, endYear, tc);
      var k := ks[|ks| - 1];
      var g := Group(shown, k, startYear, tc.bucketSize);
      if |g| >= tc.clusterThreshold then m[ClusterIdOf(k) := InfoFor(k, g, startYear, endYear, tc.bucketSize)]
      else m
  }

  /** The rows whose year the clustering needs are the rows it buckets. */
  predicate YearsPresent(rows: seq<Event>, tier: TierId) {
    forall e :: e in rows && InShown(ZoomTiers[tier], e) ==> e.year.Some?
  }

  /** Some visited group reaches the threshold, so a `cluster_info` entry
      is built. */
  predicate SomeClustered(ks: seq<Key>, shown: seq<Event>, startYear: int, tc: TierConfig) {
    exists i :: 0 <= i < |ks| && |Group(shown, ks[i], startYear, tc.bucketSize)| >= tc.clusterThreshold
  }

  /** cluster_events as a function of its inputs. With rows and clustering
      on, a missing `category` or `continent` column fails the filter or the
      grouping, and missing `cluster_info` columns fail at the first group
      that reaches the threshold. */
  function ClusterSpec(rows: seq<Event>, cols: Columns, startYear: int, endYear: int, tier: TierId, enableClustering: bool): ClusterResult
    requires rows != [] && enableClustering ==> YearsPresent(rows, tier)
  {
    if rows == [] || !enableClustering then Clustered(ClusterOutput(Originals(rows), map[]))
    else if !cols.hasCategory || !cols.hasContinent then KeyError
    else
      ZoomTiersShape();
      var tc := ZoomTiers[tier];
      var shown := Shown(tc, rows);
      if !cols.hasInfoColumns && SomeClustered(GroupKeys(shown, startYear, tc.bucketSize), shown, startYear, tc) then KeyError
      else Clustered(ClusterGroups(rows, startYear, endYear, tc))
  }

  /** The clustering branch for one tier's settings: the groups in key
      order, then the rows outside the tier's categories. */
  function ClusterGroups(rows: seq<Event>, startYear: int, endYear: int, tc: TierConfig): ClusterOutput
    requires tc.bucketSize > 0
  {
    var shown := Shown(tc, rows);
    var keys := GroupKeys(shown, startYear, tc.bucketSize);
    ClusterOutput(
      EmitGroups(keys, shown, startYear, endYear, tc) + PassedRows(Hidden(tc, rows)),
      InfoOf(keys, shown, startYear, endYear, tc))
  }

  // ---------------------------------------------------------------------
  // cluster_events
  // ---------------------------------------------------------------------

  /** The first member value that is present (`pd.notna`), scanning the
      members in order and stopping at the first hit. */
  method FirstMemberValue(vs: seq<Option<real>>) returns (v: Option<real>)
    ensures v == FirstPresent(vs)
  {
    v := None;
    var j := 0;
    while j < |vs|
      invariant 0 <= j <= |vs|
      invariant v.None?
      invariant FirstPresent(vs) == FirstPresent(vs[j..])
    {
      if vs[j].Some? {
        v := vs[j];
        break;
      }
      assert vs[j..][1..] == vs[j + 1..];
      j := j + 1;
    }
  }

  /** The cluster row and `cluster_info` entry of one group that reached the
      threshold; two scans pick the first member with a latitude and,
      independently, the first with a longitude. */
  method BuildCluster(k: Key, g: seq<Event>, startYear: int, endYear: int, bucketSize: int, infoColumns: bool)
    returns (row: ClusterRow, ci: ClusterInfo, failed: bool)
    ensures failed <==> !infoColumns
    ensures !failed ==> row == MarkerFor(k, g, startYear, endYear, bucketSize)
    ensures !failed ==> ci == InfoFor(k, g, startYear, endYear, bucketSize)
  {
    var bucketStart := startYear + k.bucket * bucketSize;
    var bucketEnd := Min(endYear, bucketStart + bucketSize);
    var clusterId := "cluster_" + IntToString(k.bucket) + "_" + k.category + "_" + k.continent;
    failed := !infoColumns;
    if failed {
      // selecting the member columns raises KeyError
      return ClusterRow(clusterId, "", k.category, k.continent, bucketStart, bucketEnd, bucketStart, "", None, None, clusterId),
             ClusterInfo(bucketStart, bucketEnd, k.category, k.continent, |g|, []), true;
    }
    ci := ClusterInfo(bucketStart, bucketEnd, k.category, k.continent, |g|, g);
    var lat := FirstMemberValue(Lats(g));
    var lon := FirstMemberValue(Lons(g));
    row := ClusterRow(
      clusterId,
      IntToString(|g|) + " events",
      k.category,
      k.continent,
      bucketStart,
      bucketEnd,
      bucketStart + bucketSize / 2,
      "Cluster: " + IntToString(|g|) + " events in " + k.category + " category",
      lat,
      lon,
      clusterId);
  }

  /** One more group visited: the shape of the main loop's step. */
  lemma VisitStep(keys: seq<Key>, i: nat, shown: seq<Event>, startYear: int, endYear: int, tc: TierConfig)
    requires tc.bucketSize > 0 && i < |keys|
    ensures var g := Group(shown, keys[i], startYear, tc.bucketSize);
      && EmitGroups(keys[..i + 1], shown, startYear, endYear, tc)
         == EmitGroups(keys[..i], shown, startYear, endYear, tc) + EmitGroup(keys[i], shown, startYear, endYear, tc)
      && InfoOf(keys[..i + 1], shown, startYear, endYear, tc)
         == if |g| >= tc.clusterThreshold
            then InfoOf(keys[..i], shown, startYear, endYear, tc)[ClusterIdOf(keys[i]) := InfoFor(keys[i], g, startYear, endYear, tc.bucketSize)]
            else InfoOf(keys[..i], shown, startYear, endYear, tc)
  {
    assert keys[..i + 1][..i] == keys[..i];
  }

  lemma GroupedRowsStep(g: seq<Event>, j: nat, startYear: int, bucketSize: int)
    requires bucketSize > 0 && forall e :: e in g ==> e.year.Some?
    requires j < |g|
    ensures GroupedRows(g[..j + 1], startYear, bucketSize)
      == GroupedRows(g[..j], startYear, bucketSize) + [Individual(g[j], Some(Bucket(g[j].year.value, startYear, bucketSize)))]
  {
    assert g[..j + 1][..j] == g[..j];
  }

  lemma PassedRowsStep(o: seq<Event>, j: nat)
    requires j < |o|
    ensures PassedRows(o[..j + 1]) == PassedRows(o[..j]) + [Individual(o[j], None)]
  {
    assert o[..j + 1][..j] == o[..j];
  }

  lemma GroupMembersHaveYears(shown: seq<Event>, k: Key, startYear: int, bucketSize: int)
    ensures forall e :: e in Group(shown, k, startYear, bucketSize) ==> e.year.Some?
  {
  }

  lemma SomeClusteredStep(keys: seq<Key>, i: nat, shown: seq<Event>, startYear: int, tc: TierConfig)
    requires i < |keys|
    ensures SomeClustered(keys[..i + 1], shown, startYear, tc)
      <==> SomeClustered(keys[..i], shown, startYear, tc) || |Group(shown, keys[i], startYear, tc.bucketSize)| >= tc.clusterThreshold
  {
    var p := keys[..i + 1];
    assert p[i] == keys[i];
    if SomeClustered(keys[..i + 1], shown, startYear, tc) {
      var j :| 0 <= j < |p| && |Group(shown, p[j], startYear, tc.bucketSize)| >= tc.clusterThreshold;
      if j < i {
        assert keys[..i][j] == p[j];
      }
    }
    if SomeClustered(keys[..i], shown, startYear, tc) {
      var j :| 0 <= j < i && |Group(shown, keys[..i][j], startYear, tc.bucketSize)| >= tc.clusterThreshold;
      assert p[j] == keys[..i][j];
    }
  }

  /** A group reaching the threshold in a prefix reaches it in the whole. */
  lemma SomeClusteredPrefix(keys: seq<Key>, n: nat, shown: seq<Event>, startYear: int, tc: TierConfig)
    requires n <= |keys| && SomeClustered(keys[..n], shown, startYear, tc)
    ensures SomeClustered(keys, shown, startYear, tc)
  {
    var j :| 0 <= j < n && |Group(shown, keys[..n][j], startYear, tc.bucketSize)| >= tc.clusterThreshold;
    assert keys[..n][j] == keys[j];
  }

  /** Appends every member of a group that stays below the threshold, each
      marked as not a cluster and carrying its bucket. */
  method AppendMembers(items: seq<Item>, group: seq<Event>, startYear: int, bucketSize: int)
    returns (out: seq<Item>)
    requires bucketSize > 0 && forall e :: e in group ==> e.year.Some?
    ensures out == items + GroupedRows(group, startYear, bucketSize)
  {
    out := items;
    var j := 0;
    while j < |group|
      invariant 0 <= j <= |group|
      invariant out == items + GroupedRows(group[..j], startYear, bucketSize)
    {
      assert group[j] in group;
      out := out + [Individual(group[j], Some(Bucket(group[j].year.value, startYear, bucketSize)))];
      GroupedRowsStep(group, j, startYear, bucketSize);
      j := j + 1;
    }
    assert group[..|group|] == group;
  }

  /** Appends the rows outside the tier's categories, in their order, each
      marked as not a cluster. */
  method AppendOthers(items: seq<Item>, other: seq<Event>) returns (out: seq<Item>)
    ensures out == items + PassedRows(other)
  {
    out := items;
    var j := 0;
    while j < |other|
      invariant 0 <= j <= |other|
      invariant out == items + PassedRows(other[..j])
    {
      out := out + [Individual(other[j], None)];
      PassedRowsStep(other, j);
      j := j + 1;
    }
    assert other[..|other|] == other;
  }

  /** The loop over the groups in key order: one cluster row and its
      `cluster_info` entry for a group at or above the threshold, every
      member row otherwise. Without the `cluster_info` columns it stops at
      the first group that reaches the threshold. */
  method VisitGroups(keys: seq<Key>, shown: seq<Event>, startYear: int, endYear: int, tc: TierConfig, infoColumns: bool)
    returns (items: seq<Item>, info: map<string, ClusterInfo>, failed: bool)
    requires tc.bucketSize > 0
    ensures failed <==> !infoColumns && SomeClustered(keys, shown, startYear, tc)
    ensures !failed ==> items == EmitGroups(keys, shown, startYear, endYear, tc)
    ensures !failed ==> info == InfoOf(keys, shown, startYear, endYear, tc)
  {
    var bucketSize := tc.bucketSize;
    items, info, failed := [], map[], false;
    var i := 0;
    while i < |keys|
      invariant 0 <= i <= |keys|
      invariant items == EmitGroups(keys[..i], shown, startYear, endYear, tc)
      invariant info == InfoOf(keys[..i], shown, startYear, endYear, tc)
      invariant !infoColumns ==> !SomeClustered(keys[..i], shown, startYear, tc)
    {
      var k := keys[i];
      var group := Group(shown, k, startYear, bucketSize);
      VisitStep(keys, i, shown, startYear, endYear, tc);
      SomeClusteredStep(keys, i, shown, startYear, tc);
      GroupMembersHaveYears(shown, k, startYear, bucketSize);
      if |group| >= tc.clusterThreshold {
        var row, ci, raised := BuildCluster(k, group, startYear, endYear, bucketSize, infoColumns);
        if raised {
          SomeClusteredPrefix(keys, i + 1, shown, startYear, tc);
          return items, info, true;
        }
        info := info[row.clusterId := ci];
        items := items + [Marker(row)];
      } else {
        items := AppendMembers(items, group, startYear, bucketSize);
      }
      i := i + 1;
    }
    assert keys[..|keys|] == keys;
  }

  /** cluster_events: visits the groups in key order, appending either one
      cluster row (and recording its `cluster_info` entry) or every member
      row, then appends the rows outside the tier's categories. */
  method ClusterEvents(rows: seq<Event>, cols: Columns, startYear: int, endYear: int, tier: TierId, enableClustering: bool)
    returns (r: ClusterResult)
    requires rows != [] && enableClustering ==> YearsPresent(rows, tier)
    ensures r == ClusterSpec(rows, cols, startYear, endYear, tier, enableClustering)
    ensures rows == [] || !enableClustering ==> r.Clustered? && r.out.items == Originals(rows) && r.out.info == map[]
  {
    if rows == [] || !enableClustering {
      return Clustered(ClusterOutput(Originals(rows), map[]));
    }
    if !cols.hasCategory || !cols.hasContinent {
      return KeyError;
    }
    var tc := ZoomTiers[tier];
    ZoomTiersShape();
    var shown := Shown(tc, rows);
    var other := Hidden(tc, rows);
    var keys := GroupKeys(shown, startYear, tc.bucketSize);
    var items, info, failed := VisitGroups(keys, shown, startYear, endYear, tc, cols.hasInfoColumns);
    if failed {
      return KeyError;
    }
    items := AppendOthers(items, other);
    return Clustered(ClusterOutput(items, info));
  }
}
