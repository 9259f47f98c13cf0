/**
 * Era backdrops of the observatory view: a table of geological and historical
 * eras, the lookup of the era a year falls in, and the guard that skips a
 * crossfade when the era has not changed.
 *
 * Years are `real` because the year looked up is the midpoint of the visible
 * range; the table's bounds are whole years.
 */
module Backdrops {
  import opened Events

  /** One era. Its CSS gradient and optional image are presentation only. */
  datatype Backdrop = Backdrop(startYear: int, endYear: int, name: string)

  const BACKDROPS: seq<Backdrop> := [
    Backdrop(-5000000000, -4000000000, "Hadean"),
    Backdrop(-4000000000, -2500000000, "Archean"),
    Backdrop(-2500000000, -541000000, "Proterozoic"),
    Backdrop(-541000000, -252000000, "Paleozoic"),
    Backdrop(-252000000, -66000000, "Mesozoic"),
    Backdrop(-66000000, -10000, "Cenozoic"),
    Backdrop(-10000, 2025, "Human Era"),
    Backdrop(2025, 10000000000, "Future")
  ]

  /** The year the view starts from before any range is known. */
  const DefaultYear: real := -2500000000.0

  /** An era covers its start year and stops short of its end year. */
  predicate Matches(b: Backdrop, year: real) {
    b.startYear as real <= year < b.endYear as real
  }

  /** Position of the first entry from `from` on that covers `year`, or 0
      (the first entry, the fallback) when none does. */
  function FirstMatch(table: seq<Backdrop>, year: real, from: nat): (i: nat)
    requires 0 < |table| && from <= |table|
    ensures i < |table|
    ensures (exists k :: from <= k < |table| && Matches(table[k], year)) ==>
      && from <= i
      && Matches(table[i], year)
      && forall k :: from <= k < i ==> !Matches(table[k], year)
    ensures (forall k :: from <= k < |table| ==> !Matches(table[k], year)) ==> i == 0
    decreases |table| - from
  {
    if from == |table| then 0
    else if Matches(table[from], year) then from
    else FirstMatch(table, year, from + 1)
  }

  /** The backdrop shown for a year. */
  function BackdropFor(year: real): Backdrop {
    BACKDROPS[FirstMatch(BACKDROPS, year, 0)]
  }

  /** The linear search over the table, returning the first era that covers
      the year and the first era when none does. */
  method GetBackdropForYear(year: real) returns (b: Backdrop)
    ensures b == BackdropFor(year)
  {
    for i := 0 to |BACKDROPS|
      invariant forall k :: 0 <= k < i ==> !Matches(BACKDROPS[k], year)
    {
      if Matches(BACKDROPS[i], year) {
        return BACKDROPS[i];
      }
    }
    return BACKDROPS[0];
  }

  // ---------------------------------------------------------------------
  // Shape of the table
  // ---------------------------------------------------------------------

  /** Every era is non-empty and each one ends where the next starts. */
  ghost predicate Contiguous(table: seq<Backdrop>) {
    && (forall k :: 0 <= k < |table| ==> table[k].startYear < table[k].endYear)
    && (forall k :: 0 <= k < |table| - 1 ==> table[k].endYear == table[k + 1].startYear)
  }

  lemma BackdropsContiguous()
    ensures Contiguous(BACKDROPS)
    ensures BACKDROPS[0].startYear == -5000000000 && BACKDROPS[|BACKDROPS| - 1].endYear == 10000000000
  {
  }

  /** In a contiguous table, an earlier era ends no later than a later one
      starts. */
  lemma {:induction false} EarlierEndsFirst(table: seq<Backdrop>, a: int, b: int)
    requires Contiguous(table) && 0 <= a < b < |table|
    ensures table[a].endYear <= table[b].startYear
    decreases b - a
  {
    if a + 1 < b {
      EarlierEndsFirst(table, a + 1, b);
    }
  }

  /** In a contiguous table, a year in the span from the first start to the
      last end is covered by exactly one era. */
  lemma {:induction false} CoveredOnce(table: seq<Backdrop>, year: real)
    requires Contiguous(table) && 0 < |table|
    requires table[0].startYear as real <= year < table[|table| - 1].endYear as real
    ensures exists k :: 0 <= k < |table| && Matches(table[k], year)
    ensures forall a, b :: 0 <= a < |table| && 0 <= b < |table| && Matches(table[a], year) && Matches(table[b], year) ==> a == b
  {
    if year >= table[0].endYear as real {
      CoveredOnce(table[1..], year);
      var k :| 0 <= k < |table[1..]| && Matches(table[1..][k], year);
      assert Matches(table[k + 1], year);
    } else {
      assert Matches(table[0], year);
    }
    forall a, b | 0 <= a < |table| && 0 <= b < |table| && Matches(table[a], year) && Matches(table[b], year)
      ensures a == b
    {
      if a < b {
        EarlierEndsFirst(table, a, b);
      } else if b < a {
        EarlierEndsFirst(table, b, a);
      }
    }
  }

  /** Outside the span from the first start to the last end no era of a
      contiguous table covers the year. */
  lemma NoneOutside(table: seq<Backdrop>, year: real)
    requires Contiguous(table) && 0 < |table|
    requires year < table[0].startYear as real || year >= table[|table| - 1].endYear as real
    ensures forall k :: 0 <= k < |table| ==> !Matches(table[k], year)
  {
    forall k | 0 <= k < |table|
      ensures !Matches(table[k], year)
    {
      if 0 < k {
        EarlierEndsFirst(table, 0, k);
      }
      if k < |table| - 1 {
        EarlierEndsFirst(table, k, |table| - 1);
      }
    }
  }

  /** Every year from -5e9 up to, not including, 1e10 gets the one era that
      covers it. */
  lemma InRangeGetsItsEra(year: real)
    requires -5000000000.0 <= year < 10000000000.0
    ensures Matches(BackdropFor(year), year)
    ensures forall k :: 0 <= k < |BACKDROPS| && Matches(BACKDROPS[k], year) ==> BACKDROPS[k] == BackdropFor(year)
  {
    BackdropsContiguous();
    CoveredOnce(BACKDROPS, year);
  }

  /** Years before -5e9 or from 1e10 on fall back to the first era. */
  lemma OutOfRangeFallsBack(year: real)
    requires year < -5000000000.0 || year >= 10000000000.0
    ensures BackdropFor(year) == BACKDROPS[0]
    ensures BackdropFor(year).name == "Hadean"
  {
    BackdropsContiguous();
    NoneOutside(BACKDROPS, year);
  }

  /** A boundary year belongs to the era that starts there. */
  lemma BoundaryBelongsToLaterEra(k: int)
    requires 0 <= k < |BACKDROPS|
    ensures BackdropFor(BACKDROPS[k].startYear as real) == BACKDROPS[k]
  {
    var year := BACKDROPS[k].startYear as real;
    BackdropsContiguous();
    assert Matches(BACKDROPS[k], year);
    CoveredOnce(BACKDROPS, year);
  }

  lemma ArcheanStartsAtFourBillion()
    ensures BackdropFor(-4000000000.0).name == "Archean"
  {
    BoundaryBelongsToLaterEra(1);
  }

  /** The default year, the Archean's end, already shows the Proterozoic. */
  lemma DefaultIsProterozoic()
    ensures BackdropFor(DefaultYear).name == "Proterozoic"
  {
    BoundaryBelongsToLaterEra(2);
  }

  /** No two eras share a name, so comparing names compares eras. */
  lemma NamesIdentifyEras(a: int, b: int)
    requires 0 <= a < |BACKDROPS| && 0 <= b < |BACKDROPS|
    ensures BACKDROPS[a].name == BACKDROPS[b].name <==> a == b
  {
  }

  // ---------------------------------------------------------------------
  // The crossfade guard
  // ---------------------------------------------------------------------

  /** The module's state: the backdrop last chosen, and the names painted
      onto the active layer, in order (standing for the style writes). */
  class BackdropController {
    var current: Option<Backdrop>
    var painted: seq<string>

    ghost predicate Valid()
      reads this
    {
      && (current.Some? ==> current.value in BACKDROPS)
      && (painted != [] ==> current.Some? && painted[|painted| - 1] == current.value.name)
    }

    constructor()
      ensures current == None && painted == []
      ensures Valid()
    {
      current := None;
      painted := [];
    }

    /** Paints the default era on both layers when both exist. */
    method InitBackdrops(layersPresent: bool)
      requires Valid()
      modifies this
      ensures Valid()
      ensures !layersPresent ==> current == old(current) && painted == old(painted)
      ensures layersPresent ==>
        && current == Some(BackdropFor(DefaultYear))
        && painted == old(painted) + [BackdropFor(DefaultYear).name]
    {
      if !layersPresent {
        return;
      }
      var b := GetBackdropForYear(DefaultYear);
      painted := painted + [b.name];
      current := Some(b);
    }

    /** Switches to the era of `midYear`, unless the era shown already has
      its name; either way that era is the one shown afterwards. */
    method SetBackdropForYear(midYear: real)
      requires Valid()
      modifies this
      ensures Valid()
      ensures current == Some(BackdropFor(midYear))
      ensures old(current).Some? && old(current).value.name == BackdropFor(midYear).name ==>
        current == old(current) && painted == old(painted)
      ensures !(old(current).Some? && old(current).value.name == BackdropFor(midYear).name) ==>
        painted == old(painted) + [BackdropFor(midYear).name]
    {
      var b := GetBackdropForYear(midYear);
      if current.Some? && current.value.name == b.name {
        SameNameSameEra(current.value, b);
        return;
      }
      current := Some(b);
      painted := painted + [b.name];
    }
  }

  /** Two table entries with the same name are the same entry. */
  lemma SameNameSameEra(x: Backdrop, y: Backdrop)
    requires x in BACKDROPS && y in BACKDROPS && x.name == y.name
    ensures x == y
  {
    var a :| 0 <= a < |BACKDROPS| && BACKDROPS[a] == x;
    var b :| 0 <= b < |BACKDROPS| && BACKDROPS[b] == y;
    NamesIdentifyEras(a, b);
  }
}
