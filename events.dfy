/**
 * Shared vocabulary of the timeline core: optional values (pandas NaN / SQL
 * NULL / JavaScript null), one row of the events table, a DataFrame row with
 * its index label, order-preserving filtering (boolean-mask selection) and the
 * decimal rendering of integers used in formatted strings.
 */
module Events {

  datatype Option<T> = None | Some(value: T)

  /** One row of the events table, restricted to the columns the core reads.
      `year` is the representative year the loader derives from `start_year`. */
  datatype Event = Event(
    id: string,
    title: string,
    category: Option<string>,
    continent: Option<string>,
    startYear: Option<int>,
    endYear: Option<int>,
    year: Option<int>,
    lat: Option<real>,
    lon: Option<real>)

  /** A DataFrame row together with its index label. */
  datatype Row = Row(index: int, ev: Event)

  function Min(a: int, b: int): int { if a <= b then a else b }

  function Max(a: int, b: int): int { if a >= b then a else b }

  /** The elements of `s` that satisfy `p`, in their original order
      (`df[mask]`, a list comprehension with a condition). */
  function Filter<T>(s: seq<T>, p: T -> bool): (r: seq<T>)
    ensures |r| <= |s|
    ensures forall x :: x in r ==> x in s && p(x)
  {
    if s == [] then [] else (if p(s[0]) then [s[0]] else []) + Filter(s[1..], p)
  }

  lemma {:induction false} FilterAppend<T>(a: seq<T>, b: seq<T>, p: T -> bool)
    ensures Filter(a + b, p) == Filter(a, p) + Filter(b, p)
  {
    if a == [] {
      assert a + b == b;
    } else {
      assert (a + b)[1..] == a[1..] + b;
      FilterAppend(a[1..], b, p);
    }
  }

  lemma FilterSingleton<T>(x: T, p: T -> bool)
    ensures Filter([x], p) == if p(x) then [x] else []
  {
    assert [x][1..] == [];
  }

  /** Filtering by the last element: the shape loop invariants use. */
  lemma FilterSnoc<T>(s: seq<T>, x: T, p: T -> bool)
    ensures Filter(s + [x], p) == Filter(s, p) + (if p(x) then [x] else [])
  {
    FilterAppend(s, [x], p);
    FilterSingleton(x, p);
  }

  lemma {:induction false} FilterKeeps<T>(s: seq<T>, p: T -> bool, x: T)
    requires x in s && p(x)
    ensures x in Filter(s, p)
  {
    if s[0] != x {
      FilterKeeps(s[1..], p, x);
    }
  }

  /** A mask and its negation split a sequence: every element lands in
      exactly one of the two selections. */
  lemma {:induction false} FilterComplement<T>(s: seq<T>, p: T -> bool, q: T -> bool)
    requires forall x :: q(x) == !p(x)
    ensures |Filter(s, p)| + |Filter(s, q)| == |s|
  {
    if s != [] {
      FilterComplement(s[1..], p, q);
    }
  }

  lemma FilterAll<T>(s: seq<T>, p: T -> bool)
    requires forall x :: x in s ==> p(x)
    ensures Filter(s, p) == s
  {
    if s != [] {
      FilterAll(s[1..], p);
    }
  }

  /** No element occurs twice. */
  ghost predicate Distinct<T>(s: seq<T>) {
    forall i, j :: 0 <= i < j < |s| ==> s[i] != s[j]
  }

  /** Filtering keeps relative order: any two selected elements occur in the
      same order in the original sequence. */
  lemma {:induction false} FilterOrder<T>(s: seq<T>, p: T -> bool, i: int, j: int)
    requires 0 <= i < j < |Filter(s, p)|
    ensures exists a, b :: 0 <= a < b < |s| && s[a] == Filter(s, p)[i] && s[b] == Filter(s, p)[j]
  {
    var f, rest := Filter(s, p), Filter(s[1..], p);
    if p(s[0]) && i == 0 {
      FilterHeadFirst(s, p, j);
    } else {
      var i', j' := if p(s[0]) then i - 1 else i, if p(s[0]) then j - 1 else j;
      assert f[i] == rest[i'] && f[j] == rest[j'];
      FilterOrder(s[1..], p, i', j');
      ShiftPair(s, rest[i'], rest[j']);
    }
  }

  lemma FilterHeadFirst<T>(s: seq<T>, p: T -> bool, j: int)
    requires s != [] && p(s[0]) && 0 < j < |Filter(s, p)|
    ensures exists a, b :: 0 <= a < b < |s| && s[a] == Filter(s, p)[0] && s[b] == Filter(s, p)[j]
  {
    var rest := Filter(s[1..], p);
    assert Filter(s, p)[j] == rest[j - 1] && rest[j - 1] in s[1..];
    var b' :| 0 <= b' < |s[1..]| && s[1..][b'] == rest[j - 1];
    assert s[0] == Filter(s, p)[0] && s[b' + 1] == Filter(s, p)[j];
  }

  lemma ShiftPair<T>(s: seq<T>, x: T, y: T)
    requires s != []
    requires exists a, b :: 0 <= a < b < |s[1..]| && s[1..][a] == x && s[1..][b] == y
    ensures exists a, b :: 0 <= a < b < |s| && s[a] == x && s[b] == y
  {
    var a, b :| 0 <= a < b < |s[1..]| && s[1..][a] == x && s[1..][b] == y;
    assert s[a + 1] == x && s[b + 1] == y;
  }

  lemma FilterDistinct<T>(s: seq<T>, p: T -> bool)
    requires Distinct(s)
    ensures Distinct(Filter(s, p))
  {
    var f := Filter(s, p);
    forall i, j | 0 <= i < j < |f|
      ensures f[i] != f[j]
    {
      FilterOrder(s, p, i, j);
    }
  }

  function DigitChar(d: int): char
    requires 0 <= d < 10
  {
    "0123456789"[d]
  }

  /** Decimal digits of a natural number, most significant first. */
  function NatToString(n: nat): (s: string)
    ensures |s| >= 1
    ensures forall c :: c in s ==> '0' <= c <= '9'
    decreases n
  {
    if n < 10 then [DigitChar(n)] else NatToString(n / 10) + [DigitChar(n % 10)]
  }

  /** `str(i)` for an integer: a minus sign for negative values. */
  function IntToString(i: int): (s: string)
    ensures |s| >= 1
    ensures forall c :: c in s ==> c == '-' || '0' <= c <= '9'
  {
    if i < 0 then "-" + NatToString(-i) else NatToString(i)
  }
}
