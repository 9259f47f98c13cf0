/**
 * The data side of the timeline generator: the loader's normalisation of the
 * year columns, the ordered category list it builds for the category column,
 * and the year-window filter every view starts from.
 *
 * Reading the CSV file or the database is not modelled: the loader receives
 * the table it would have read as a `Table` value.
 */
module Timeline {
  import opened Events

  /** The predefined category order of the configuration. */
  const CategoryOrder: seq<string> :=
    ["era", "migration", "civilization", "empire", "war", "religion", "biblical"]

  /** A table as read from the CSV file or the database, before
      normalisation; the flags say which optional columns it had. */
  datatype Table = Table(hasStartYear: bool, hasEndYear: bool, hasCategory: bool, records: seq<Event>)

  /** The generator's DataFrame: rows with their index labels, which columns
      exist, and the category order once the category column has been made an
      ordered categorical. */
  datatype Frame = Frame(
    hasStartYear: bool,
    hasEndYear: bool,
    hasCategory: bool,
    rows: seq<Row>,
    categoryOrder: Option<seq<string>>)

  // ---------------------------------------------------------------------
  // Category order
  // ---------------------------------------------------------------------

  /** The category column's non-missing values, each once, in order of first
      appearance (`dropna().unique()`). */
  function DataCategories(cats: seq<Option<string>>): (r: seq<string>)
    ensures Distinct(r)
    ensures forall x :: x in r <==> Some(x) in cats
  {
    if cats == [] then []
    else
      var prev, c := DataCategories(cats[..|cats| - 1]), cats[|cats| - 1];
      assert cats == cats[..|cats| - 1] + [c];
      if c.Some? && c.value !in prev then prev + [c.value] else prev
  }

  function Categories(rows: seq<Row>): (cats: seq<Option<string>>)
    ensures |cats| == |rows|
    ensures forall i :: 0 <= i < |rows| ==> cats[i] == rows[i].ev.category
  {
    seq(|rows|, i requires 0 <= i < |rows| => rows[i].ev.category)
  }

  function In(data: seq<string>): string -> bool {
    c => c in data
  }

  function NotIn(order: seq<string>): string -> bool {
    c => c !in order
  }

  /** The merged order: the predefined categories that occur in the data, in
      predefined order, then every other category of the data in the data's
      own order. */
  function MergedOrder(order: seq<string>, data: seq<string>): seq<string> {
    Filter(order, In(data)) + Filter(data, NotIn(order))
  }

  /** The comprehension over the predefined order followed by the loop that
      appends every data category not yet listed; the predefined order is the
      configured one, passed in. */
  method MergeCategoryOrder(categoryOrder: seq<string>, cats: seq<Option<string>>)
    returns (allCategories: seq<string>)
    ensures allCategories == MergedOrder(categoryOrder, DataCategories(cats))
  {
    var dataCategories := DataCategories(cats);
    allCategories := Filter(categoryOrder, In(dataCategories));
    ghost var predefined := allCategories;
    for i := 0 to |dataCategories|
      invariant allCategories == predefined + Filter(dataCategories[..i], NotIn(categoryOrder))
    {
      var cat := dataCategories[i];
      MergeStep(categoryOrder, dataCategories, i);
      ghost var others := Filter(dataCategories[..i], NotIn(categoryOrder));
      if cat !in allCategories {
        allCategories := allCategories + [cat];
        assert allCategories == predefined + (others + [cat]);
      }
    }
    assert dataCategories[..|dataCategories|] == dataCategories;
  }

  /** The loop's membership test `cat not in all_categories` selects exactly
      the categories outside the predefined order, because the data
      categories are distinct. */
  lemma MergeStep(order: seq<string>, data: seq<string>, i: int)
    requires Distinct(data) && 0 <= i < |data|
    ensures data[i] in Filter(order, In(data)) + Filter(data[..i], NotIn(order))
        <==> data[i] in order
    ensures Filter(data[..i + 1], NotIn(order))
        == Filter(data[..i], NotIn(order)) + if data[i] in order then [] else [data[i]]
  {
    assert data[..i + 1] == data[..i] + [data[i]];
    FilterSnoc(data[..i], data[i], NotIn(order));
    if data[i] in order {
      FilterKeeps(order, In(data), data[i]);
    } else {
      assert data[i] !in data[..i];
    }
  }

  /** Where position `k` of the merged order falls: in the predefined part,
      or in the rest, whose entries are not predefined. */
  lemma MergedParts(order: seq<string>, data: seq<string>, k: int)
    requires 0 <= k < |MergedOrder(order, data)|
    ensures k < |Filter(order, In(data))| ==>
      MergedOrder(order, data)[k] == Filter(order, In(data))[k] && MergedOrder(order, data)[k] in order
    ensures k >= |Filter(order, In(data))| ==>
      && MergedOrder(order, data)[k] == Filter(data, NotIn(order))[k - |Filter(order, In(data))|]
      && MergedOrder(order, data)[k] !in order
  {
    var pre, rest := Filter(order, In(data)), Filter(data, NotIn(order));
    if k < |pre| {
      assert pre[k] in pre;
    } else {
      assert rest[k - |pre|] in rest;
    }
  }

  /** Each distinct category of the data occurs in the merged order exactly
      once, and nothing else does. */
  lemma MergedOrderListsEachCategoryOnce(order: seq<string>, data: seq<string>)
    requires Distinct(order) && Distinct(data)
    ensures Distinct(MergedOrder(order, data))
    ensures forall x :: x in MergedOrder(order, data) <==> x in data
  {
    var pre, rest := Filter(order, In(data)), Filter(data, NotIn(order));
    var m := MergedOrder(order, data);
    FilterDistinct(order, In(data));
    FilterDistinct(data, NotIn(order));
    forall x | x in data
      ensures x in m
    {
      if x in order {
        FilterKeeps(order, In(data), x);
      } else {
        FilterKeeps(data, NotIn(order), x);
      }
    }
    forall i, j | 0 <= i < j < |m|
      ensures m[i] != m[j]
    {
      MergedParts(order, data, i);
      MergedParts(order, data, j);
    }
  }

  /** The predefined categories come first: no other category precedes one
      of them. */
  lemma PredefinedCategoriesFirst(order: seq<string>, data: seq<string>, i: int, j: int)
    requires 0 <= i < j < |MergedOrder(order, data)|
    requires MergedOrder(order, data)[j] in order
    ensures MergedOrder(order, data)[i] in order
  {
    MergedParts(order, data, j);
    MergedParts(order, data, i);
  }

  /** The predefined categories keep the predefined order. */
  lemma PredefinedInConfiguredOrder(order: seq<string>, data: seq<string>, i: int, j: int)
    requires 0 <= i < j < |MergedOrder(order, data)|
    requires MergedOrder(order, data)[j] in order
    ensures exists a, b ::
      && 0 <= a < b < |order|
      && order[a] == MergedOrder(order, data)[i] && order[b] == MergedOrder(order, data)[j]
  {
    MergedParts(order, data, j);
    MergedParts(order, data, i);
    FilterOrder(order, In(data), i, j);
  }

  /** The other categories keep their order of first appearance in the
      category column: the earlier one occurs at a row above every
      occurrence of the later one. */
  lemma OtherCategoriesInFirstSeenOrder(order: seq<string>, cats: seq<Option<string>>, i: int, j: int)
    requires 0 <= i < j < |MergedOrder(order, DataCategories(cats))|
    requires MergedOrder(order, DataCategories(cats))[i] !in order
    ensures MergedOrder(order, DataCategories(cats))[j] !in order
    ensures exists row ::
      && 0 <= row < |cats|
      && cats[row] == Some(MergedOrder(order, DataCategories(cats))[i])
      && forall k :: 0 <= k <= row ==> cats[k] != Some(MergedOrder(order, DataCategories(cats))[j])
  {
    var data := DataCategories(cats);
    var m := MergedOrder(order, data);
    OthersKeepDataOrder(order, data, i, j);
    var a, b :| 0 <= a < b < |data| && data[a] == m[i] && data[b] == m[j];
    FirstSeen(cats, a, b);
  }

  /** The categories after the predefined ones keep the data's order. */
  lemma OthersKeepDataOrder(order: seq<string>, data: seq<string>, i: int, j: int)
    requires 0 <= i < j < |MergedOrder(order, data)|
    requires MergedOrder(order, data)[i] !in order
    ensures MergedOrder(order, data)[j] !in order
    ensures exists a, b :: 0 <= a < b < |data| && data[a] == MergedOrder(order, data)[i] && data[b] == MergedOrder(order, data)[j]
  {
    var pre := Filter(order, In(data));
    MergedParts(order, data, i);
    MergedParts(order, data, j);
    FilterOrder(data, NotIn(order), i - |pre|, j - |pre|);
  }

  /** A column holding "war", a missing value, "era" and "war" again has the
      data categories war, era, in that order. */
  lemma DataCategoriesExample()
    ensures DataCategories([Some("war"), None, Some("era"), Some("war")]) == ["war", "era"]
  {
    var cats := [Some("war"), None, Some("era"), Some("war")];
    assert DataCategories(cats[..1]) == ["war"];
    assert cats[..2][..1] == cats[..1];
    assert DataCategories(cats[..2]) == ["war"];
    assert cats[..3][..2] == cats[..2];
    assert DataCategories(cats[..3]) == ["war", "era"];
    assert cats[..3] == cats[..|cats| - 1];
  }

  /** `DataCategories` lists categories in order of first appearance. */
  lemma {:induction false} FirstSeen(cats: seq<Option<string>>, a: int, b: int)
    requires 0 <= a < b < |DataCategories(cats)|
    ensures exists row ::
      && 0 <= row < |cats|
      && cats[row] == Some(DataCategories(cats)[a])
      && forall k :: 0 <= k <= row ==> cats[k] != Some(DataCategories(cats)[b])
  {
    var r := DataCategories(cats);
    var init := cats[..|cats| - 1];
    var prev := DataCategories(init);
    if b < |prev| {
      assert r[a] == prev[a] && r[b] == prev[b];
      FirstSeen(init, a, b);
      var row :| 0 <= row < |init| && init[row] == Some(prev[a])
        && forall k :: 0 <= k <= row ==> init[k] != Some(prev[b]);
      assert cats[row] == init[row];
      assert forall k :: 0 <= k <= row ==> cats[k] == init[k];
    } else {
      assert r == prev + [r[b]] && r[b] !in prev;
      assert r[a] in prev;
      var row :| 0 <= row < |init| && init[row] == Some(r[a]);
      assert cats[row] == init[row];
      forall k | 0 <= k <= row
        ensures cats[k] != Some(r[b])
      {
        assert cats[k] == init[k];
      }
    }
  }

  // ---------------------------------------------------------------------
  // Loading
  // ---------------------------------------------------------------------

  /** One record after the year columns are normalised: a missing column
      becomes all-missing, and `year` copies `start_year`. */
  function Normalized(e: Event, t: Table): Event {
    var start := if t.hasStartYear then e.startYear else None;
    e.(startYear := start, endYear := if t.hasEndYear then e.endYear else None, year := start)
  }

  function NormalizedRows(t: Table): (rows: seq<Row>)
    ensures |rows| == |t.records|
    ensures forall i :: 0 <= i < |rows| ==> rows[i] == Row(i, Normalized(t.records[i], t))
  {
    seq(|t.records|, i requires 0 <= i < |t.records| => Row(i, Normalized(t.records[i], t)))
  }

  /** The frame the loader leaves in `self.df` for a given source table. */
  function Loaded(t: Table): Frame {
    if t.records == [] then
      Frame(true, true, true, [], None)
    else
      var rows := NormalizedRows(t);
      Frame(true, true, t.hasCategory, rows,
            if t.hasCategory then Some(MergedOrder(CategoryOrder, DataCategories(Categories(rows)))) else None)
  }

  /** After loading, both year columns exist, rows are labelled by position,
      `year` equals `start_year` on every row, a year column the source lacked
      is missing on every row, and no other field changes. */
  lemma LoadedRows(t: Table)
    ensures Loaded(t).hasStartYear && Loaded(t).hasEndYear
    ensures |Loaded(t).rows| == |t.records|
    ensures forall i :: 0 <= i < |Loaded(t).rows| ==>
      && Loaded(t).rows[i].index == i
      && Loaded(t).rows[i].ev.year == Loaded(t).rows[i].ev.startYear
      && Loaded(t).rows[i].ev.startYear == (if t.hasStartYear then t.records[i].startYear else None)
      && Loaded(t).rows[i].ev.endYear == (if t.hasEndYear then t.records[i].endYear else None)
      && Loaded(t).rows[i].ev.(startYear := t.records[i].startYear,
                               endYear := t.records[i].endYear,
                               year := t.records[i].year) == t.records[i]
  {
  }

  lemma CategoryOrderDistinct()
    ensures Distinct(CategoryOrder)
  {
  }

  /** A non-empty table with a category column gets the merged order, which
      lists each category occurring in the data exactly once and nothing
      else; an empty table or one without the column gets none. */
  lemma LoadedCategoryOrder(t: Table)
    ensures Loaded(t).categoryOrder.Some? <==> t.hasCategory && t.records != []
    ensures Loaded(t).categoryOrder.Some? ==>
      && Distinct(Loaded(t).categoryOrder.value)
      && forall x :: x in Loaded(t).categoryOrder.value <==>
           exists i :: 0 <= i < |t.records| && t.records[i].category == Some(x)
  {
    if t.hasCategory && t.records != [] {
      var cats := Categories(NormalizedRows(t));
      CategoryOrderDistinct();
      MergedOrderListsEachCategoryOnce(CategoryOrder, DataCategories(cats));
      RecordCategories(t);
    }
  }

  /** Normalisation leaves the category column alone. */
  lemma RecordCategories(t: Table)
    ensures forall x :: Some(x) in Categories(NormalizedRows(t)) <==>
      exists i :: 0 <= i < |t.records| && t.records[i].category == Some(x)
  {
    var cats := Categories(NormalizedRows(t));
    assert forall i :: 0 <= i < |t.records| ==> cats[i] == t.records[i].category;
  }

  // ---------------------------------------------------------------------
  // The year window
  // ---------------------------------------------------------------------

  /** The mask of the filter: both years present, the event ends no earlier
      than the window starts and starts no later than the window ends. */
  predicate InWindow(e: Event, windowStart: int, windowEnd: int) {
    && e.startYear.Some? && e.endYear.Some?
    && e.endYear.value >= windowStart
    && e.startYear.value <= windowEnd
  }

  function InWindowP(windowStart: int, windowEnd: int): Row -> bool {
    (x: Row) => InWindow(x.ev, windowStart, windowEnd)
  }

  ghost predicate Covers(lo: int, hi: int, y: int) {
    lo <= y <= hi
  }

  /** For an event that does not end before it starts and a window that
      does not end before it starts, the mask holds exactly when the two
      closed year intervals meet. */
  lemma WindowIsOverlap(e: Event, windowStart: int, windowEnd: int)
    requires e.startYear.Some? && e.endYear.Some? && e.startYear.value <= e.endYear.value
    requires windowStart <= windowEnd
    ensures InWindow(e, windowStart, windowEnd) <==>
      exists y :: Covers(e.startYear.value, e.endYear.value, y) && Covers(windowStart, windowEnd, y)
  {
    if InWindow(e, windowStart, windowEnd) {
      var y := Max(e.startYear.value, windowStart);
      assert Covers(e.startYear.value, e.endYear.value, y) && Covers(windowStart, windowEnd, y);
    }
  }

  class TimelineGenerator {
    var df: Frame

    constructor(source: Table)
      ensures df == Loaded(source)
    {
      df := Frame(false, false, false, [], None);
      new;
      LoadData(source);
    }

    /** Replaces the frame by the normalised source table. */
    method LoadData(source: Table)
      modifies this
      ensures df == Loaded(source)
    {
      if source.records == [] {
        df := Frame(true, true, true, [], None);
        return;
      }
      var rows := NormalizedRows(source);
      var order := None;
      if source.hasCategory {
        var merged := MergeCategoryOrder(CategoryOrder, Categories(rows));
        order := Some(merged);
      }
      df := Frame(true, true, source.hasCategory, rows, order);
    }

    /** The rows whose year span meets the window, in frame order, keeping
      their labels; nothing when the frame is empty or lacks a year column. */
    function GetFilteredData(windowStart: int, windowEnd: int): (r: seq<Row>)
      reads this
      ensures df.rows == [] || !df.hasStartYear || !df.hasEndYear ==> r == []
      ensures forall x :: x in r ==> x in df.rows && InWindow(x.ev, windowStart, windowEnd)
    {
      if df.rows == [] || !df.hasStartYear || !df.hasEndYear then []
      else Filter(df.rows, InWindowP(windowStart, windowEnd))
    }
  }

  /** Every row of a frame with both year columns that passes the mask is
      returned. */
  lemma FilteredDataKeeps(g: TimelineGenerator, windowStart: int, windowEnd: int, x: Row)
    requires g.df.hasStartYear && g.df.hasEndYear
    requires x in g.df.rows && InWindow(x.ev, windowStart, windowEnd)
    ensures x in g.GetFilteredData(windowStart, windowEnd)
  {
    FilterKeeps(g.df.rows, InWindowP(windowStart, windowEnd), x);
  }

  /** The filter keeps the frame's row order. */
  lemma FilteredDataInOrder(g: TimelineGenerator, windowStart: int, windowEnd: int, i: int, j: int)
    requires 0 <= i < j < |g.GetFilteredData(windowStart, windowEnd)|
    ensures exists a, b ::
      && 0 <= a < b < |g.df.rows|
      && g.df.rows[a] == g.GetFilteredData(windowStart, windowEnd)[i]
      && g.df.rows[b] == g.GetFilteredData(windowStart, windowEnd)[j]
  {
    FilterOrder(g.df.rows, InWindowP(windowStart, windowEnd), i, j);
  }

  /** On a freshly loaded frame the filtered rows keep the labels of their
      positions in the whole frame: labels increase but have gaps wherever a
      row was dropped, so they are not positions in the filtered result. */
  lemma FilteredLabelsArePositionsInFrame(t: Table, g: TimelineGenerator, windowStart: int, windowEnd: int)
    requires g.df == Loaded(t)
    ensures forall x :: x in g.GetFilteredData(windowStart, windowEnd) ==>
      0 <= x.index < |g.df.rows| && g.df.rows[x.index] == x
    ensures forall i, j :: 0 <= i < j < |g.GetFilteredData(windowStart, windowEnd)| ==>
      g.GetFilteredData(windowStart, windowEnd)[i].index < g.GetFilteredData(windowStart, windowEnd)[j].index
  {
    LoadedRows(t);
    var r := g.GetFilteredData(windowStart, windowEnd);
    forall i, j | 0 <= i < j < |r|
      ensures r[i].index < r[j].index
    {
      FilteredDataInOrder(g, windowStart, windowEnd, i, j);
    }
  }
}
