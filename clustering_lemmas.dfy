/**
 * What cluster_events promises, proved about its specification
 * (Clustering.ClusterSpec, which Clustering.ClusterEvents computes):
 * the threshold decides each group, cluster rows describe their bucket,
 * rows outside the tier's categories are never clustered, and every input
 * row is accounted for exactly once, and a missing column fails exactly
 * when the run needs it.
 */
module ClusteringLemmas {
  import opened Events
  import opened Clustering

  // ---------------------------------------------------------------------
  // Where an output item comes from
  // ---------------------------------------------------------------------

  lemma {:induction false} FromSomeGroup(ks: seq<Key>, shown: seq<Event>, startYear: int, endYear: int, tc: TierConfig, x: Item)
    requires tc.bucketSize > 0
    requires x in EmitGroups(ks, shown, startYear, endYear, tc)
    ensures exists i :: 0 <= i < |ks| && x in EmitGroup(ks[i], shown, startYear, endYear, tc)
  {
    var init := ks[..|ks| - 1];
    if x !in EmitGroup(ks[|ks| - 1], shown, startYear, endYear, tc) {
      FromSomeGroup(init, shown, startYear, endYear, tc, x);
      var i :| 0 <= i < |init| && x in EmitGroup(init[i], shown, startYear, endYear, tc);
      assert init[i] == ks[i];
    }
  }

  lemma {:induction false} IntoEmitGroups(ks: seq<Key>, i: nat, shown: seq<Event>, startYear: int, endYear: int, tc: TierConfig, x: Item)
    requires tc.bucketSize > 0
    requires i < |ks| && x in EmitGroup(ks[i], shown, startYear, endYear, tc)
    ensures x in EmitGroups(ks, shown, startYear, endYear, tc)
  {
    if i < |ks| - 1 {
      var init := ks[..|ks| - 1];
      assert init[i] == ks[i];
      IntoEmitGroups(init, i, shown, startYear, endYear, tc, x);
    }
  }

  /** Every group `groupby` visits has at least one member. */
  lemma KeysHaveMembers(shown: seq<Event>, k: Key, startYear: int, bucketSize: int)
    requires bucketSize > 0
    requires k in GroupKeys(shown, startYear, bucketSize)
    ensures |Group(shown, k, startYear, bucketSize)| >= 1
  {
    var e :| e in shown && Groupable(e) && KeyOf(e, startYear, bucketSize) == k;
    FilterKeeps(shown, InGroupP(k, startYear, bucketSize), e);
  }

  lemma MulCancel(a: int, b: int, c: int)
    requires c > 0 && a * c == b * c
    ensures a == b
  {
  }

  /** A cluster row names its bucket start, category and continent, so two
      groups never produce the same cluster row. */
  lemma MarkerDeterminesKey(k1: Key, g1: seq<Event>, k2: Key, g2: seq<Event>, startYear: int, endYear: int, bucketSize: int)
    requires bucketSize > 0
    requires MarkerFor(k1, g1, startYear, endYear, bucketSize) == MarkerFor(k2, g2, startYear, endYear, bucketSize)
    ensures k1 == k2
  {
    var r1 := MarkerFor(k1, g1, startYear, endYear, bucketSize);
    var r2 := MarkerFor(k2, g2, startYear, endYear, bucketSize);
    assert r1.startYear == r2.startYear && r1.category == r2.category && r1.continent == r2.continent;
    MulCancel(k1.bucket, k2.bucket, bucketSize);
  }

  /** The cluster row of group `k` appears among the grouped output only if
      that group reached the threshold. */
  lemma MarkerOnlyAboveThreshold(ks: seq<Key>, shown: seq<Event>, startYear: int, endYear: int, tc: TierConfig, k: Key)
    requires tc.bucketSize > 0
    requires Marker(MarkerFor(k, Group(shown, k, startYear, tc.bucketSize), startYear, endYear, tc.bucketSize))
      in EmitGroups(ks, shown, startYear, endYear, tc)
    ensures |Group(shown, k, startYear, tc.bucketSize)| >= tc.clusterThreshold
  {
    var bs := tc.bucketSize;
    var m := Marker(MarkerFor(k, Group(shown, k, startYear, bs), startYear, endYear, bs));
    FromSomeGroup(ks, shown, startYear, endYear, tc, m);
    var j :| 0 <= j < |ks| && m in EmitGroup(ks[j], shown, startYear, endYear, tc);
    var gj := Group(shown, ks[j], startYear, bs);
    if |gj| >= tc.clusterThreshold {
      assert m == Marker(MarkerFor(ks[j], gj, startYear, endYear, bs));
      MarkerDeterminesKey(k, Group(shown, k, startYear, bs), ks[j], gj, startYear, endYear, bs);
    }
  }

  lemma MarkerNotPassed(hidden: seq<Event>, r: ClusterRow)
    ensures Marker(r) !in PassedRows(hidden)
  {
  }

  /** What another group emits never contains group `k`'s cluster row. */
  lemma MarkerNotFromOtherGroup(k: Key, j: Key, shown: seq<Event>, startYear: int, endYear: int, tc: TierConfig)
    requires tc.bucketSize > 0 && j != k
    ensures Marker(MarkerFor(k, Group(shown, k, startYear, tc.bucketSize), startYear, endYear, tc.bucketSize))
      !in EmitGroup(j, shown, startYear, endYear, tc)
  {
    var bs := tc.bucketSize;
    var gj := Group(shown, j, startYear, bs);
    var gk := Group(shown, k, startYear, bs);
    if |gj| >= tc.clusterThreshold && MarkerFor(k, gk, startYear, endYear, bs) == MarkerFor(j, gj, startYear, endYear, bs) {
      MarkerDeterminesKey(k, gk, j, gj, startYear, endYear, bs);
    }
  }

  /** Group `k`'s cluster row occurs exactly once in the grouped output when
      the keys are distinct and the group reached the threshold. */
  lemma {:induction false} MarkerOnce(ks: seq<Key>, shown: seq<Event>, startYear: int, endYear: int, tc: TierConfig, k: Key)
    requires tc.bucketSize > 0 && Distinct(ks) && k in ks
    requires |Group(shown, k, startYear, tc.bucketSize)| >= tc.clusterThreshold
    ensures multiset(EmitGroups(ks, shown, startYear, endYear, tc))
      [Marker(MarkerFor(k, Group(shown, k, startYear, tc.bucketSize), startYear, endYear, tc.bucketSize))] == 1
  {
    var bs := tc.bucketSize;
    var m := Marker(MarkerFor(k, Group(shown, k, startYear, bs), startYear, endYear, bs));
    var init := ks[..|ks| - 1];
    var last := ks[|ks| - 1];
    assert ks == init + [last];
    if last == k {
      if m in EmitGroups(init, shown, startYear, endYear, tc) {
        FromSomeGroup(init, shown, startYear, endYear, tc, m);
        var i :| 0 <= i < |init| && m in EmitGroup(init[i], shown, startYear, endYear, tc);
        assert init[i] == ks[i] && ks[i] != ks[|ks| - 1];
        MarkerNotFromOtherGroup(k, init[i], shown, startYear, endYear, tc);
      }
      assert EmitGroup(k, shown, startYear, endYear, tc) == [m];
    } else {
      assert k in init;
      assert Distinct(init) by {
        forall a, b | 0 <= a < b < |init| ensures init[a] != init[b] {
          assert init[a] == ks[a] && init[b] == ks[b];
        }
      }
      MarkerOnce(init, shown, startYear, endYear, tc, k);
      MarkerNotFromOtherGroup(k, last, shown, startYear, endYear, tc);
    }
  }

  /** The individual rows a small group emits are rows of that group. */
  lemma GroupedRowsFromGroup(g: seq<Event>, startYear: int, bucketSize: int, x: Item)
    requires bucketSize > 0 && forall e :: e in g ==> e.year.Some?
    requires x in GroupedRows(g, startYear, bucketSize)
    ensures x.Individual? && x.ev in g
  {
    var t :| 0 <= t < |g| && GroupedRows(g, startYear, bucketSize)[t] == x;
  }

  /** The rows passed through are rows of the hidden categories. */
  lemma PassedRowsFromHidden(o: seq<Event>, x: Item)
    requires x in PassedRows(o)
    ensures x.Individual? && x.ev in o
  {
    var t :| 0 <= t < |o| && PassedRows(o)[t] == x;
  }

  /** No group emits a member of a group that reached the threshold as an
      individual row. */
  lemma ClusteredMembersNotGrouped(ks: seq<Key>, shown: seq<Event>, startYear: int, endYear: int, tc: TierConfig, k: Key, e: Event, b: Option<int>)
    requires tc.bucketSize > 0
    requires |Group(shown, k, startYear, tc.bucketSize)| >= tc.clusterThreshold
    requires e in Group(shown, k, startYear, tc.bucketSize)
    ensures Individual(e, b) !in EmitGroups(ks, shown, startYear, endYear, tc)
  {
    var bs := tc.bucketSize;
    var x := Individual(e, b);
    if x in EmitGroups(ks, shown, startYear, endYear, tc) {
      FromSomeGroup(ks, shown, startYear, endYear, tc, x);
      var j :| 0 <= j < |ks| && x in EmitGroup(ks[j], shown, startYear, endYear, tc);
      var gj := Group(shown, ks[j], startYear, bs);
      if |gj| < tc.clusterThreshold {
        GroupMembersHaveYears(shown, ks[j], startYear, bs);
        GroupedRowsFromGroup(gj, startYear, bs, x);
      }
    }
  }

  /** A row of a shown category is never among the rows passed through. */
  lemma ShownNotPassed(rows: seq<Event>, tc: TierConfig, e: Event, b: Option<int>)
    requires e in Shown(tc, rows)
    ensures Individual(e, b) !in PassedRows(Hidden(tc, rows))
  {
    if Individual(e, b) in PassedRows(Hidden(tc, rows)) {
      PassedRowsFromHidden(Hidden(tc, rows), Individual(e, b));
    }
  }

  // ---------------------------------------------------------------------
  // The threshold decides every group
  // ---------------------------------------------------------------------

  /** A group visited by `groupby` yields its cluster row iff it has at least
      `cluster_threshold` members; below the threshold each member appears
      on its own, marked as not a cluster and carrying its bucket. */
  lemma ThresholdDecides(rows: seq<Event>, startYear: int, endYear: int, tc: TierConfig, k: Key)
    requires tc.bucketSize > 0
    requires k in GroupKeys(Shown(tc, rows), startYear, tc.bucketSize)
    ensures var g := Group(Shown(tc, rows), k, startYear, tc.bucketSize);
      var items := ClusterGroups(rows, startYear, endYear, tc).items;
      && (Marker(MarkerFor(k, g, startYear, endYear, tc.bucketSize)) in items <==> |g| >= tc.clusterThreshold)
      && (|g| < tc.clusterThreshold ==> forall e :: e in g ==> Individual(e, Some(k.bucket)) in items)
      && (|g| >= tc.clusterThreshold ==> multiset(items)[Marker(MarkerFor(k, g, startYear, endYear, tc.bucketSize))] == 1)
      && (|g| >= tc.clusterThreshold ==> forall e, b :: e in g ==> Individual(e, b) !in items)
  {
    var bs := tc.bucketSize;
    var shown := Shown(tc, rows);
    var keys := GroupKeys(shown, startYear, bs);
    var g := Group(shown, k, startYear, bs);
    var grouped := EmitGroups(keys, shown, startYear, endYear, tc);
    var passed := PassedRows(Hidden(tc, rows));
    var items := ClusterGroups(rows, startYear, endYear, tc).items;
    assert items == grouped + passed;
    var i :| 0 <= i < |keys| && keys[i] == k;
    var m := Marker(MarkerFor(k, g, startYear, endYear, bs));
    if |g| >= tc.clusterThreshold {
      assert EmitGroup(k, shown, startYear, endYear, tc) == [m];
      IntoEmitGroups(keys, i, shown, startYear, endYear, tc, m);
      StrictlySortedDistinct(keys);
      MarkerOnce(keys, shown, startYear, endYear, tc, k);
      MarkerNotPassed(Hidden(tc, rows), m.row);
      assert multiset(items) == multiset(grouped) + multiset(passed);
      forall e, b | e in g ensures Individual(e, b) !in items {
        ClusteredMembersNotGrouped(keys, shown, startYear, endYear, tc, k, e, b);
        ShownNotPassed(rows, tc, e, b);
      }
    } else {
      MarkerNotPassed(Hidden(tc, rows), m.row);
      if m in grouped {
        MarkerOnlyAboveThreshold(keys, shown, startYear, endYear, tc, k);
      }
      forall e | e in g ensures Individual(e, Some(k.bucket)) in items {
        MemberIndividual(keys, i, shown, startYear, endYear, tc, e);
      }
    }
  }

  lemma MemberIndividual(ks: seq<Key>, i: nat, shown: seq<Event>, startYear: int, endYear: int, tc: TierConfig, e: Event)
    requires tc.bucketSize > 0 && i < |ks|
    requires |Group(shown, ks[i], startYear, tc.bucketSize)| < tc.clusterThreshold
    requires e in Group(shown, ks[i], startYear, tc.bucketSize)
    ensures Individual(e, Some(ks[i].bucket)) in EmitGroups(ks, shown, startYear, endYear, tc)
  {
    var g := Group(shown, ks[i], startYear, tc.bucketSize);
    var p :| 0 <= p < |g| && g[p] == e;
    assert InGroup(e, ks[i], startYear, tc.bucketSize);
    assert GroupedRows(g, startYear, tc.bucketSize)[p] == Individual(e, Some(ks[i].bucket));
    IntoEmitGroups(ks, i, shown, startYear, endYear, tc, Individual(e, Some(ks[i].bucket)));
  }

  // ---------------------------------------------------------------------
  // Cluster rows describe their bucket
  // ---------------------------------------------------------------------

  /** A cluster row spans its bucket, clipped to the window end: it starts at
      `start_year + bucket * bucket_size`, every member's year lies in
      `[start, start + bucket_size)`, it ends at the bucket end or the window
      end, whichever is earlier, and it is placed at the bucket's midpoint. */
  lemma ClusterRowSpan(k: Key, g: seq<Event>, startYear: int, endYear: int, bucketSize: int)
    requires bucketSize > 0 && bucketSize % 2 == 0
    requires forall e :: e in g ==> InGroup(e, k, startYear, bucketSize)
    ensures var r := MarkerFor(k, g, startYear, endYear, bucketSize);
      && (forall e :: e in g ==> e.year.Some? && r.startYear <= e.year.value < r.startYear + bucketSize)
      && r.endYear <= endYear && r.endYear <= r.startYear + bucketSize
      && (r.endYear == endYear || r.endYear == r.startYear + bucketSize)
      && 2 * (r.year - r.startYear) == bucketSize
  {
    MarkerYears(k, g, startYear, endYear, bucketSize);
    MembersInBucket(k, g, startYear, bucketSize);
  }

  lemma MarkerYears(k: Key, g: seq<Event>, startYear: int, endYear: int, bucketSize: int)
    requires bucketSize % 2 == 0
    ensures var r := MarkerFor(k, g, startYear, endYear, bucketSize);
      && r.startYear == BucketStart(k, startYear, bucketSize)
      && r.endYear == Min(endYear, r.startYear + bucketSize)
      && 2 * (r.year - r.startYear) == bucketSize
  {
  }

  lemma MembersInBucket(k: Key, g: seq<Event>, startYear: int, bucketSize: int)
    requires bucketSize > 0
    requires forall e :: e in g ==> InGroup(e, k, startYear, bucketSize)
    ensures forall e :: e in g ==>
      e.year.Some? && BucketStart(k, startYear, bucketSize) <= e.year.value < BucketStart(k, startYear, bucketSize) + bucketSize
  {
    forall e | e in g
      ensures e.year.Some? && BucketStart(k, startYear, bucketSize) <= e.year.value < BucketStart(k, startYear, bucketSize) + bucketSize
    {
      BucketBounds(e.year.value, startYear, bucketSize);
    }
  }

  /** A cluster row's latitude is the first latitude present among the
      members in row order, and is missing only when every member lacks one;
      the longitude is chosen the same way, independently. */
  lemma ClusterRowCoordinates(k: Key, g: seq<Event>, startYear: int, endYear: int, bucketSize: int)
    ensures var r := MarkerFor(k, g, startYear, endYear, bucketSize);
      && (r.lat.None? <==> forall i :: 0 <= i < |g| ==> g[i].lat.None?)
      && (r.lat.Some? ==> exists i :: 0 <= i < |g| && g[i].lat == r.lat && forall j :: 0 <= j < i ==> g[j].lat.None?)
      && (r.lon.None? <==> forall i :: 0 <= i < |g| ==> g[i].lon.None?)
      && (r.lon.Some? ==> exists i :: 0 <= i < |g| && g[i].lon == r.lon && forall j :: 0 <= j < i ==> g[j].lon.None?)
  {
    var lat := FirstPresent(Lats(g));
    var lon := FirstPresent(Lons(g));
    if lat.Some? {
      var i :| 0 <= i < |g| && Lats(g)[i] == lat && forall j :: 0 <= j < i ==> Lats(g)[j].None?;
      assert g[i].lat == lat;
    }
    if lon.Some? {
      var i :| 0 <= i < |g| && Lons(g)[i] == lon && forall j :: 0 <= j < i ==> Lons(g)[j].None?;
      assert g[i].lon == lon;
    }
  }

  // ---------------------------------------------------------------------
  // Rows outside the tier's categories
  // ---------------------------------------------------------------------

  /** Every row listed in `m` passes the tier's category filter. */
  ghost predicate ListsOnlyShown(m: map<string, ClusterInfo>, tc: TierConfig) {
    forall id :: id in m ==> forall e :: e in m[id].events ==> InShown(tc, e)
  }

  lemma {:induction false} InfoListsShownRows(ks: seq<Key>, shown: seq<Event>, rows: seq<Event>, startYear: int, endYear: int, tc: TierConfig)
    requires tc.bucketSize > 0 && shown == Shown(tc, rows)
    ensures ListsOnlyShown(InfoOf(ks, shown, startYear, endYear, tc), tc)
  {
    if ks != [] {
      var init := ks[..|ks| - 1];
      var k := ks[|ks| - 1];
      InfoListsShownRows(init, shown, rows, startYear, endYear, tc);
      var m0 := InfoOf(init, shown, startYear, endYear, tc);
      var g := Group(shown, k, startYear, tc.bucketSize);
      if |g| >= tc.clusterThreshold {
        forall e | e in g ensures InShown(tc, e) {
          ShownRowsAreShown(tc, rows, e);
        }
      }
    }
  }

  /** Rows whose category the tier does not cluster are never folded into a
      cluster: no `cluster_info` entry lists them, no cluster row carries a
      category outside the tier's list, and each of them is emitted on its
      own, after all grouped output, in input order. */
  lemma HiddenRowsNeverClustered(rows: seq<Event>, startYear: int, endYear: int, tc: TierConfig)
    requires tc.bucketSize > 0
    ensures var out := ClusterGroups(rows, startYear, endYear, tc);
      var hidden := Hidden(tc, rows);
      && ListsOnlyShown(out.info, tc)
      && (forall x :: x in out.items && x.Marker? && tc.showCategories.Some? ==> x.row.category in tc.showCategories.value)
      && |hidden| <= |out.items|
      && out.items[|out.items| - |hidden|..] == PassedRows(hidden)
  {
    var shown := Shown(tc, rows);
    InfoListsShownRows(GroupKeys(shown, startYear, tc.bucketSize), shown, rows, startYear, endYear, tc);
    MarkersInOutputShown(rows, startYear, endYear, tc);
    HiddenRowsLast(rows, startYear, endYear, tc);
  }

  lemma MarkersInOutputShown(rows: seq<Event>, startYear: int, endYear: int, tc: TierConfig)
    requires tc.bucketSize > 0
    ensures forall x :: x in ClusterGroups(rows, startYear, endYear, tc).items && x.Marker? && tc.showCategories.Some? ==>
      x.row.category in tc.showCategories.value
  {
    var bs := tc.bucketSize;
    var shown := Shown(tc, rows);
    var keys := GroupKeys(shown, startYear, bs);
    var out := ClusterGroups(rows, startYear, endYear, tc);
    assert out.items == EmitGroups(keys, shown, startYear, endYear, tc) + PassedRows(Hidden(tc, rows));
    forall k | k in keys ensures |Group(shown, k, startYear, bs)| >= 1 {
      KeysHaveMembers(shown, k, startYear, bs);
    }
    forall x | x in out.items && x.Marker? && tc.showCategories.Some?
      ensures x.row.category in tc.showCategories.value
    {
      MarkerNotPassed(Hidden(tc, rows), x.row);
      MarkersCarryShownCategory(keys, shown, rows, startYear, endYear, tc, x);
    }
  }

  lemma HiddenRowsLast(rows: seq<Event>, startYear: int, endYear: int, tc: TierConfig)
    requires tc.bucketSize > 0
    ensures var out := ClusterGroups(rows, startYear, endYear, tc);
      var hidden := Hidden(tc, rows);
      && |hidden| <= |out.items|
      && out.items[|out.items| - |hidden|..] == PassedRows(hidden)
  {
    var shown := Shown(tc, rows);
    var grouped := EmitGroups(GroupKeys(shown, startYear, tc.bucketSize), shown, startYear, endYear, tc);
    var passed := PassedRows(Hidden(tc, rows));
    assert (grouped + passed)[|grouped|..] == passed;
  }

  lemma MarkersCarryShownCategory(ks: seq<Key>, shown: seq<Event>, rows: seq<Event>, startYear: int, endYear: int, tc: TierConfig, x: Item)
    requires tc.bucketSize > 0 && shown == Shown(tc, rows)
    requires forall k :: k in ks ==> |Group(shown, k, startYear, tc.bucketSize)| >= 1
    requires x in EmitGroups(ks, shown, startYear, endYear, tc) && x.Marker? && tc.showCategories.Some?
    ensures x.row.category in tc.showCategories.value
  {
    FromSomeGroup(ks, shown, startYear, endYear, tc, x);
    var j :| 0 <= j < |ks| && x in EmitGroup(ks[j], shown, startYear, endYear, tc);
    var g := Group(shown, ks[j], startYear, tc.bucketSize);
    assert x.row.category == ks[j].category;
    var e := g[0];
    assert e in g && e in shown;
    ShownRowsAreShown(tc, rows, e);
  }

  lemma ShownRowsAreShown(tc: TierConfig, rows: seq<Event>, e: Event)
    requires e in Shown(tc, rows)
    ensures InShown(tc, e)
  {
    assert ShownP(tc)(e);
  }

  // ---------------------------------------------------------------------
  // Conservation
  // ---------------------------------------------------------------------

  /** Rows that take part in clustering but that `groupby` drops because
      their category or continent is missing. */
  function Dropped(rows: seq<Event>, tc: TierConfig): seq<Event> {
    Filter(Shown(tc, rows), NotGroupable)
  }

  function CountIndividuals(items: seq<Item>): nat {
    if items == [] then 0
    else CountIndividuals(items[..|items| - 1]) + (if items[|items| - 1].Individual? then 1 else 0)
  }

  lemma {:induction false} CountIndividualsAppend(a: seq<Item>, b: seq<Item>)
    ensures CountIndividuals(a + b) == CountIndividuals(a) + CountIndividuals(b)
    decreases |b|
  {
    if b != [] {
      assert (a + b)[..|a + b| - 1] == a + b[..|b| - 1];
      CountIndividualsAppend(a, b[..|b| - 1]);
    } else {
      assert a + b == a;
    }
  }

  lemma {:induction false} CountAllIndividuals(items: seq<Item>)
    requires forall x :: x in items ==> x.Individual?
    ensures CountIndividuals(items) == |items|
  {
    if items != [] {
      CountAllIndividuals(items[..|items| - 1]);
    }
  }

  /** Total size of the groups of `ks`, of those that reach the threshold,
      and of those that do not. */
  function SizeSum(ks: seq<Key>, shown: seq<Event>, startYear: int, bucketSize: int): nat {
    if ks == [] then 0
    else SizeSum(ks[..|ks| - 1], shown, startYear, bucketSize) + |Group(shown, ks[|ks| - 1], startYear, bucketSize)|
  }

  function BigSum(ks: seq<Key>, shown: seq<Event>, startYear: int, bucketSize: int, threshold: int): nat {
    if ks == [] then 0
    else
      var n := |Group(shown, ks[|ks| - 1], startYear, bucketSize)|;
      BigSum(ks[..|ks| - 1], shown, startYear, bucketSize, threshold) + (if n >= threshold then n else 0)
  }

  function SmallSum(ks: seq<Key>, shown: seq<Event>, startYear: int, bucketSize: int, threshold: int): nat {
    if ks == [] then 0
    else
      var n := |Group(shown, ks[|ks| - 1], startYear, bucketSize)|;
      SmallSum(ks[..|ks| - 1], shown, startYear, bucketSize, threshold) + (if n >= threshold then 0 else n)
  }

  lemma {:induction false} SplitSums(ks: seq<Key>, shown: seq<Event>, startYear: int, bucketSize: int, threshold: int)
    ensures BigSum(ks, shown, startYear, bucketSize, threshold) + SmallSum(ks, shown, startYear, bucketSize, threshold)
      == SizeSum(ks, shown, startYear, bucketSize)
  {
    if ks != [] {
      SplitSums(ks[..|ks| - 1], shown, startYear, bucketSize, threshold);
    }
  }

  /** How many keys of `ks` the row `e` belongs to. */
  function Occ(ks: seq<Key>, e: Event, startYear: int, bucketSize: int): nat {
    if ks == [] then 0
    else Occ(ks[..|ks| - 1], e, startYear, bucketSize) + (if InGroup(e, ks[|ks| - 1], startYear, bucketSize) then 1 else 0)
  }

  lemma {:induction false} OccAbsent(ks: seq<Key>, e: Event, startYear: int, bucketSize: int)
    requires bucketSize > 0
    requires !Groupable(e) || KeyOf(e, startYear, bucketSize) !in ks
    ensures Occ(ks, e, startYear, bucketSize) == 0
  {
    if ks != [] {
      var init := ks[..|ks| - 1];
      assert Groupable(e) ==> KeyOf(e, startYear, bucketSize) !in init by {
        forall k | k in init ensures k in ks { }
      }
      OccAbsent(init, e, startYear, bucketSize);
    }
  }

  lemma {:induction false} OccOnce(ks: seq<Key>, e: Event, startYear: int, bucketSize: int)
    requires bucketSize > 0
    requires forall i, j :: 0 <= i < j < |ks| ==> ks[i] != ks[j]
    requires Groupable(e) && KeyOf(e, startYear, bucketSize) in ks
    ensures Occ(ks, e, startYear, bucketSize) == 1
  {
    var init := ks[..|ks| - 1];
    var last := ks[|ks| - 1];
    if last == KeyOf(e, startYear, bucketSize) {
      assert last !in init;
      OccAbsent(init, e, startYear, bucketSize);
    } else {
      OccOnce(init, e, startYear, bucketSize);
    }
  }

  /** Adding a row grows the group sizes by the number of keys it belongs to. */
  lemma {:induction false} SizeSumSnoc(ks: seq<Key>, shown: seq<Event>, e: Event, startYear: int, bucketSize: int)
    ensures SizeSum(ks, shown + [e], startYear, bucketSize)
      == SizeSum(ks, shown, startYear, bucketSize) + Occ(ks, e, startYear, bucketSize)
  {
    if ks != [] {
      SizeSumSnoc(ks[..|ks| - 1], shown, e, startYear, bucketSize);
      FilterSnoc(shown, e, InGroupP(ks[|ks| - 1], startYear, bucketSize));
    }
  }

  lemma {:induction false} SizeSumEmpty(ks: seq<Key>, startYear: int, bucketSize: int)
    ensures SizeSum(ks, [], startYear, bucketSize) == 0
  {
    if ks != [] {
      SizeSumEmpty(ks[..|ks| - 1], startYear, bucketSize);
    }
  }

  /** Distinct keys that cover every groupable row partition those rows. */
  lemma {:induction false} GroupsPartition(ks: seq<Key>, shown: seq<Event>, startYear: int, bucketSize: int)
    requires bucketSize > 0
    requires forall i, j :: 0 <= i < j < |ks| ==> ks[i] != ks[j]
    requires forall e :: e in shown && Groupable(e) ==> KeyOf(e, startYear, bucketSize) in ks
    ensures SizeSum(ks, shown, startYear, bucketSize) == |Filter(shown, Groupable)|
    decreases |shown|
  {
    if shown == [] {
      SizeSumEmpty(ks, startYear, bucketSize);
    } else {
      var init := shown[..|shown| - 1];
      var e := shown[|shown| - 1];
      assert shown == init + [e];
      GroupsPartition(ks, init, startYear, bucketSize);
      SizeSumSnoc(ks, init, e, startYear, bucketSize);
      FilterSnoc(init, e, Groupable);
      if Groupable(e) {
        OccOnce(ks, e, startYear, bucketSize);
      } else {
        OccAbsent(ks, e, startYear, bucketSize);
      }
    }
  }

  lemma {:induction false} EmitGroupsIndividuals(ks: seq<Key>, shown: seq<Event>, startYear: int, endYear: int, tc: TierConfig)
    requires tc.bucketSize > 0
    ensures CountIndividuals(EmitGroups(ks, shown, startYear, endYear, tc))
      == SmallSum(ks, shown, startYear, tc.bucketSize, tc.clusterThreshold)
  {
    if ks != [] {
      var init := ks[..|ks| - 1];
      var k := ks[|ks| - 1];
      EmitGroupsIndividuals(init, shown, startYear, endYear, tc);
      CountIndividualsAppend(EmitGroups(init, shown, startYear, endYear, tc), EmitGroup(k, shown, startYear, endYear, tc));
      var g := Group(shown, k, startYear, tc.bucketSize);
      if |g| >= tc.clusterThreshold {
        assert CountIndividuals([Marker(MarkerFor(k, g, startYear, endYear, tc.bucketSize))]) == 0 by {
          assert [Marker(MarkerFor(k, g, startYear, endYear, tc.bucketSize))][..0] == [];
        }
      } else {
        CountAllIndividuals(GroupedRows(g, startYear, tc.bucketSize));
      }
    }
  }

  /** The sum of `event_count` over a `cluster_info` map. */
  ghost function SumCounts(m: map<string, ClusterInfo>): int
    decreases |m.Keys|
  {
    if m.Keys == {} then 0
    else
      var id :| id in m.Keys;
      assert m.Keys - {id} < m.Keys;
      m[id].eventCount + SumCounts(m - {id})
  }

  lemma {:induction false} SumCountsRemove(m: map<string, ClusterInfo>, id: string)
    requires id in m
    ensures SumCounts(m) == m[id].eventCount + SumCounts(m - {id})
    decreases |m.Keys|
  {
    var chosen :| chosen in m.Keys && SumCounts(m) == m[chosen].eventCount + SumCounts(m - {chosen});
    if chosen != id {
      assert m.Keys - {chosen} < m.Keys;
      assert m.Keys - {id} < m.Keys;
      SumCountsRemove(m - {chosen}, id);
      SumCountsRemove(m - {id}, chosen);
      assert (m - {chosen}) - {id} == (m - {id}) - {chosen};
    }
  }

  /** The cluster ids of the keys are pairwise different. */
  ghost predicate IdsInjective(ks: seq<Key>) {
    forall i, j :: 0 <= i < j < |ks| ==> ClusterIdOf(ks[i]) != ClusterIdOf(ks[j])
  }

  /** Every `cluster_info` key is the id of a visited group. */
  lemma {:induction false} InfoIds(ks: seq<Key>, shown: seq<Event>, startYear: int, endYear: int, tc: TierConfig)
    requires tc.bucketSize > 0
    ensures forall id :: id in InfoOf(ks, shown, startYear, endYear, tc) ==> exists k :: k in ks && id == ClusterIdOf(k)
  {
    if ks != [] {
      var init := ks[..|ks| - 1];
      InfoIds(init, shown, startYear, endYear, tc);
      forall k | k in init ensures k in ks { }
    }
  }

  lemma SumCountsAdd(m: map<string, ClusterInfo>, id: string, ci: ClusterInfo)
    requires id !in m
    ensures SumCounts(m[id := ci]) == ci.eventCount + SumCounts(m)
  {
    SumCountsRemove(m[id := ci], id);
    assert m[id := ci] - {id} == m;
  }

  /** With distinct ids, the last group's id is not yet in `cluster_info`. */
  lemma FreshId(ks: seq<Key>, shown: seq<Event>, startYear: int, endYear: int, tc: TierConfig)
    requires tc.bucketSize > 0 && IdsInjective(ks) && ks != []
    ensures ClusterIdOf(ks[|ks| - 1]) !in InfoOf(ks[..|ks| - 1], shown, startYear, endYear, tc)
  {
    var init := ks[..|ks| - 1];
    var id := ClusterIdOf(ks[|ks| - 1]);
    InfoIds(init, shown, startYear, endYear, tc);
  }

  lemma {:induction false} InfoOfSums(ks: seq<Key>, shown: seq<Event>, startYear: int, endYear: int, tc: TierConfig)
    requires tc.bucketSize > 0 && IdsInjective(ks)
    ensures SumCounts(InfoOf(ks, shown, startYear, endYear, tc))
      == BigSum(ks, shown, startYear, tc.bucketSize, tc.clusterThreshold)
  {
    if ks != [] {
      var init := ks[..|ks| - 1];
      var k := ks[|ks| - 1];
      var m := InfoOf(init, shown, startYear, endYear, tc);
      assert IdsInjective(init);
      InfoOfSums(init, shown, startYear, endYear, tc);
      var g := Group(shown, k, startYear, tc.bucketSize);
      if |g| >= tc.clusterThreshold {
        FreshId(ks, shown, startYear, endYear, tc);
        SumCountsAdd(m, ClusterIdOf(k), InfoFor(k, g, startYear, endYear, tc.bucketSize));
      }
    }
  }

  /** Conservation: the member counts of the cluster_info entries, the rows
      emitted individually and the rows `groupby` drops add up to the input.
      Stated for distinct cluster ids: two keys whose formatted ids coincide
      (a category or continent containing '_') share one dict entry. */
  lemma Conservation(rows: seq<Event>, startYear: int, endYear: int, tc: TierConfig)
    requires tc.bucketSize > 0
    requires IdsInjective(GroupKeys(Shown(tc, rows), startYear, tc.bucketSize))
    ensures var out := ClusterGroups(rows, startYear, endYear, tc);
      SumCounts(out.info) + CountIndividuals(out.items) + |Dropped(rows, tc)| == |rows|
  {
    var bs := tc.bucketSize;
    var shown := Shown(tc, rows);
    var hidden := Hidden(tc, rows);
    var keys := GroupKeys(shown, startYear, bs);
    StrictlySortedDistinct(keys);
    GroupsPartition(keys, shown, startYear, bs);
    FilterComplement(shown, Groupable, NotGroupable);
    FilterComplement(rows, ShownP(tc), HiddenP(tc));
    SplitSums(keys, shown, startYear, bs, tc.clusterThreshold);
    EmitGroupsIndividuals(keys, shown, startYear, endYear, tc);
    CountIndividualsAppend(EmitGroups(keys, shown, startYear, endYear, tc), PassedRows(hidden));
    CountAllIndividuals(PassedRows(hidden));
    InfoOfSums(keys, shown, startYear, endYear, tc);
  }

  // ---------------------------------------------------------------------
  // When cluster ids are distinct
  // ---------------------------------------------------------------------

  lemma {:induction false} NatToStringInjective(a: nat, b: nat)
    requires NatToString(a) == NatToString(b)
    ensures a == b
    decreases a
  {
    var s := NatToString(a);
    if a < 10 && b < 10 {
      assert s[0] == "0123456789"[a] == "0123456789"[b];
    } else if a >= 10 && b >= 10 {
      assert NatToString(a / 10) == s[..|s| - 1] == NatToString(b / 10);
      NatToStringInjective(a / 10, b / 10);
      assert "0123456789"[a % 10] == s[|s| - 1] == "0123456789"[b % 10];
    }
  }

  lemma IntToStringInjective(a: int, b: int)
    requires IntToString(a) == IntToString(b)
    ensures a == b
  {
    var s := IntToString(a);
    if a < 0 && b < 0 {
      assert NatToString(-a) == s[1..] == NatToString(-b);
      NatToStringInjective(-a, -b);
    } else if a >= 0 && b >= 0 {
      NatToStringInjective(a, b);
    } else if a < 0 {
      assert NatToString(b)[0] in NatToString(b);
    } else {
      assert NatToString(a)[0] in NatToString(a);
    }
  }

  /** The first '_' of `a + "_" + x` is the one after `a` when `a` has none. */
  lemma FirstUnderscore(a: string, x: string)
    requires '_' !in a
    ensures var s := a + "_" + x;
      s[|a|] == '_' && forall i :: 0 <= i < |a| ==> s[i] != '_'
  {
    var s := a + "_" + x;
    forall i | 0 <= i < |a| ensures s[i] != '_' {
      assert s[i] == a[i] && a[i] in a;
    }
  }

  /** Splitting at the first '_': a prefix free of '_' is recovered. */
  lemma SplitAtUnderscore(a: string, x: string, b: string, y: string)
    requires '_' !in a && '_' !in b
    requires a + "_" + x == b + "_" + y
    ensures a == b && x == y
  {
    var s := a + "_" + x;
    FirstUnderscore(a, x);
    FirstUnderscore(b, y);
    assert |a| == |b|;
    assert a == s[..|a|] == b;
    assert x == s[|a| + 1..] == y;
  }

  /** `cluster_{bucket}_{category}_{continent}` tells groups apart as long
      as no category name contains '_'. */
  lemma ClusterIdsDistinct(k1: Key, k2: Key)
    requires '_' !in k1.category && '_' !in k2.category
    requires k1 != k2
    ensures ClusterIdOf(k1) != ClusterIdOf(k2)
  {
    if ClusterIdOf(k1) == ClusterIdOf(k2) {
      var b1, b2 := IntToString(k1.bucket), IntToString(k2.bucket);
      var r1 := k1.category + "_" + k1.continent;
      var r2 := k2.category + "_" + k2.continent;
      var t1, t2 := b1 + "_" + r1, b2 + "_" + r2;
      assert ClusterIdOf(k1) == "cluster_" + t1;
      assert ClusterIdOf(k2) == "cluster_" + t2;
      assert t1 == ("cluster_" + t1)[8..] == ("cluster_" + t2)[8..] == t2;
      assert '_' !in b1 && '_' !in b2;
      SplitAtUnderscore(b1, r1, b2, r2);
      IntToStringInjective(k1.bucket, k2.bucket);
      SplitAtUnderscore(k1.category, k1.continent, k2.category, k2.continent);
    }
  }

  /** Without that condition two groups can share an id: category "a_b" on
      continent "c" and category "a" on continent "b_c" in the same bucket. */
  lemma ClusterIdsCanCollide()
    ensures Key(0, "a_b", "c") != Key(0, "a", "b_c")
    ensures ClusterIdOf(Key(0, "a_b", "c")) == ClusterIdOf(Key(0, "a", "b_c"))
  {
    assert IntToString(0) == "0";
  }

  lemma IdsInjectiveWhenCategoriesPlain(ks: seq<Key>)
    requires forall i, j :: 0 <= i < j < |ks| ==> ks[i] != ks[j]
    requires forall k :: k in ks ==> '_' !in k.category
    ensures IdsInjective(ks)
  {
    forall i, j | 0 <= i < j < |ks| ensures ClusterIdOf(ks[i]) != ClusterIdOf(ks[j]) {
      ClusterIdsDistinct(ks[i], ks[j]);
    }
  }

  // ---------------------------------------------------------------------
  // Missing columns
  // ---------------------------------------------------------------------

  /** Some visited group reaches the threshold exactly when the grouped
      output holds a cluster row. */
  lemma MarkerIffSomeClustered(ks: seq<Key>, shown: seq<Event>, startYear: int, endYear: int, tc: TierConfig)
    requires tc.bucketSize > 0
    ensures SomeClustered(ks, shown, startYear, tc)
      <==> exists x :: x in EmitGroups(ks, shown, startYear, endYear, tc) && x.Marker?
  {
    var bs := tc.bucketSize;
    if SomeClustered(ks, shown, startYear, tc) {
      var i :| 0 <= i < |ks| && |Group(shown, ks[i], startYear, bs)| >= tc.clusterThreshold;
      var m := Marker(MarkerFor(ks[i], Group(shown, ks[i], startYear, bs), startYear, endYear, bs));
      assert EmitGroup(ks[i], shown, startYear, endYear, tc) == [m];
      IntoEmitGroups(ks, i, shown, startYear, endYear, tc, m);
    }
    forall x | x in EmitGroups(ks, shown, startYear, endYear, tc) && x.Marker?
      ensures SomeClustered(ks, shown, startYear, tc)
    {
      FromSomeGroup(ks, shown, startYear, endYear, tc, x);
      var j :| 0 <= j < |ks| && x in EmitGroup(ks[j], shown, startYear, endYear, tc);
      var gj := Group(shown, ks[j], startYear, bs);
      if |gj| < tc.clusterThreshold {
        GroupMembersHaveYears(shown, ks[j], startYear, bs);
        GroupedRowsFromGroup(gj, startYear, bs, x);
      }
    }
  }

  /** cluster_events fails exactly when it has rows, clustering is on, and
      either the `category` or `continent` column is missing or the
      `cluster_info` columns are missing while the run would emit a cluster
      row; otherwise it returns the grouped output. */
  lemma KeyErrorExactlyWhenColumnNeeded(rows: seq<Event>, cols: Columns, startYear: int, endYear: int, tier: TierId, enableClustering: bool)
    requires rows != [] && enableClustering ==> YearsPresent(rows, tier)
    ensures ZoomTiers[tier].bucketSize > 0
    ensures ClusterSpec(rows, cols, startYear, endYear, tier, enableClustering).KeyError?
      <==> && rows != [] && enableClustering
           && (|| !cols.hasCategory || !cols.hasContinent
               || (&& !cols.hasInfoColumns
                   && exists x :: x in ClusterGroups(rows, startYear, endYear, ZoomTiers[tier]).items && x.Marker?))
    ensures rows != [] && enableClustering && ClusterSpec(rows, cols, startYear, endYear, tier, enableClustering).Clustered? ==>
      ClusterSpec(rows, cols, startYear, endYear, tier, enableClustering).out == ClusterGroups(rows, startYear, endYear, ZoomTiers[tier])
  {
    ZoomTiersShape();
    var tc := ZoomTiers[tier];
    var shown := Shown(tc, rows);
    var keys := GroupKeys(shown, startYear, tc.bucketSize);
    var grouped := EmitGroups(keys, shown, startYear, endYear, tc);
    var passed := PassedRows(Hidden(tc, rows));
    assert ClusterGroups(rows, startYear, endYear, tc).items == grouped + passed;
    MarkerIffSomeClustered(keys, shown, startYear, endYear, tc);
    forall x | x in passed ensures !x.Marker? {
      PassedRowsFromHidden(Hidden(tc, rows), x);
    }
  }
}
