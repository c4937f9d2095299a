/** The forecast request: a pure function of the store's contents.

    The horizon must lie in 0..5. The base figure is the demand of the
    record with the latest date (500 on an empty store), and the answer
    lists one entry per future year. The growth-and-rounding step that
    turns the base into a yearly figure is floating-point arithmetic and is
    taken as a parameter `project(base, i)` for the i-th year ahead. */
module Forecasting {
  import opened Records

  const MaxYears: int := 5
  const DefaultBase: real := 500.0

  datatype Entry = Entry(year: int, forecastGwh: real)

  /** The position that a left-to-right maximum search by date settles on:
      the current best is replaced only by a strictly later date, so among
      several records with the latest date the first one wins. */
  function LatestIndex(rs: seq<Record>): (k: nat)
    requires |rs| > 0
    ensures k < |rs|
    ensures forall j :: 0 <= j < |rs| ==> DateLe(rs[j].date, rs[k].date)
    ensures forall j :: 0 <= j < k ==> DateLt(rs[j].date, rs[k].date)
    decreases |rs|
  {
    if |rs| == 1 then 0
    else
      var k := LatestIndex(rs[..|rs| - 1]);
      if DateLt(rs[k].date, rs[|rs| - 1].date) then |rs| - 1 else k
  }

  /** The latest entry of the listing is latest among all stored records,
      and every record with a lower id has a strictly earlier date. */
  lemma LatestOfListing(s: State, vs: seq<Record>, i: nat)
    requires Valid(s) && vs == ValuesInOrder(s.records, 1, s.nextId) && i < |vs|
    requires forall j :: 0 <= j < |vs| ==> DateLe(vs[j].date, vs[i].date)
    requires forall j :: 0 <= j < i ==> DateLt(vs[j].date, vs[i].date)
    ensures forall k :: k in s.records ==> DateLe(s.records[k].date, vs[i].date)
    ensures forall k :: k in s.records && k < vs[i].id ==> DateLt(s.records[k].date, vs[i].date)
  {
    forall k | k in s.records
      ensures DateLe(s.records[k].date, vs[i].date)
      ensures k < vs[i].id ==> DateLt(s.records[k].date, vs[i].date)
    {
      assert s.records[k] in vs;
      var j :| 0 <= j < |vs| && vs[j] == s.records[k];
      assert k < vs[i].id ==> j < i;
    }
  }

  /** The stored record the forecast starts from: it has a latest date, and
      every record listed before it (lower id) has a strictly earlier date. */
  function Latest(s: State): (r: Record)
    requires Valid(s) && s.records != map[]
    ensures r.id in s.records && s.records[r.id] == r
    ensures forall k :: k in s.records ==> DateLe(s.records[k].date, r.date)
    ensures forall k :: k in s.records && k < r.id ==> DateLt(s.records[k].date, r.date)
  {
    var vs := ValuesInOrder(s.records, 1, s.nextId);
    assert |vs| > 0 by {
      var k :| k in s.records;
      assert s.records[k] in vs;
    }
    var i := LatestIndex(vs);
    LatestOfListing(s, vs, i);
    vs[i]
  }

  /** The base figure: the default on an empty store, otherwise the demand
      of a stored record that no stored record postdates. */
  function Base(s: State): (b: real)
    requires Valid(s)
    ensures s.records == map[] ==> b == DefaultBase
    ensures s.records != map[] ==>
      exists k :: k in s.records && s.records[k].demandGwh == b &&
        forall k' :: k' in s.records ==> DateLe(s.records[k'].date, s.records[k].date)
  {
    if s.records == map[] then DefaultBase
    else
      var r := Latest(s);
      assert r.id in s.records && s.records[r.id].demandGwh == r.demandGwh;
      r.demandGwh
  }

  /** The entries for years 1..n ahead of `currentYear`. */
  function Projected(base: real, currentYear: int, project: (real, nat) -> real, n: nat): (es: seq<Entry>)
    ensures |es| == n
    ensures forall i :: 0 <= i < n ==> es[i].year == currentYear + i + 1
    ensures forall i :: 0 <= i < n ==> es[i].forecastGwh == project(base, i + 1)
  {
    if n == 0 then []
    else Projected(base, currentYear, project, n - 1) + [Entry(currentYear + n, project(base, n))]
  }

  /** The forecast request for a horizon of `years` years. */
  function Forecast(s: State, years: int, currentYear: int, project: (real, nat) -> real)
    : (r: Result<seq<Entry>>)
    requires Valid(s)
    ensures r.Err? <==> years < 0 || years > MaxYears
    ensures r.Err? ==> r.error == InvalidYears
    ensures r.Ok? ==> |r.value| == years
    ensures r.Ok? ==> forall i :: 0 <= i < years ==> r.value[i].year == currentYear + i + 1
    ensures r.Ok? && s.records == map[] ==>
      forall i :: 0 <= i < years ==> r.value[i].forecastGwh == project(DefaultBase, i + 1)
    ensures r.Ok? && s.records != map[] ==>
      forall i :: 0 <= i < years ==> r.value[i].forecastGwh == project(Latest(s).demandGwh, i + 1)
  {
    if years < 0 || years > MaxYears then Err(InvalidYears)
    else Ok(Projected(Base(s), currentYear, project, years))
  }

  /** A zero horizon yields an empty list whatever the store holds. */
  lemma ZeroHorizonIsEmpty(s: State, currentYear: int, project: (real, nat) -> real)
    requires Valid(s)
    ensures Forecast(s, 0, currentYear, project) == Ok([])
  {
  }

  /** On an empty store a one-year forecast starts from the default base. */
  lemma EmptyStoreOneYear(currentYear: int, project: (real, nat) -> real)
    ensures Forecast(Empty, 1, currentYear, project)
         == Ok([Entry(currentYear + 1, project(DefaultBase, 1))])
  {
    var r := Forecast(Empty, 1, currentYear, project);
    assert r.Ok? && |r.value| == 1;
    assert r.value[0] == Entry(currentYear + 1, project(DefaultBase, 1));
    assert r.value == [Entry(currentYear + 1, project(DefaultBase, 1))];
  }

  /** A two-year forecast on a non-empty store lists the latest record's
      demand projected one and two years ahead. */
  lemma TwoYearsFromLatest(s: State, currentYear: int, project: (real, nat) -> real)
    requires Valid(s) && s.records != map[]
    ensures Forecast(s, 2, currentYear, project)
         == Ok([Entry(currentYear + 1, project(Latest(s).demandGwh, 1)),
                Entry(currentYear + 2, project(Latest(s).demandGwh, 2))])
  {
    var r := Forecast(s, 2, currentYear, project);
    assert r.Ok? && |r.value| == 2;
    assert r.value[0] == Entry(currentYear + 1, project(Latest(s).demandGwh, 1));
    assert r.value[1] == Entry(currentYear + 2, project(Latest(s).demandGwh, 2));
    assert r.value == [r.value[0], r.value[1]];
  }

  /** Two inserts with different dates: the forecast starts from the demand
      of the later-dated one, whatever order they were inserted in. */
  lemma LaterDateGivesBase(d1: Date, g1: real, d2: Date, g2: real, currentYear: int,
                           project: (real, nat) -> real)
    requires DateLt(d1, d2)
    ensures var s := Add(Add(Empty, d1, g1).0, d2, g2).0;
      && Forecast(s, 2, currentYear, project)
         == Ok([Entry(currentYear + 1, project(g2, 1)), Entry(currentYear + 2, project(g2, 2))])
    ensures var t := Add(Add(Empty, d2, g2).0, d1, g1).0;
      && Forecast(t, 2, currentYear, project)
         == Ok([Entry(currentYear + 1, project(g2, 1)), Entry(currentYear + 2, project(g2, 2))])
  {
    var s := Add(Add(Empty, d1, g1).0, d2, g2).0;
    assert s.records.Keys == {1, 2} && s.records[1].date == d1 && s.records[2].demandGwh == g2;
    assert Latest(s).id == 2;
    TwoYearsFromLatest(s, currentYear, project);
    var t := Add(Add(Empty, d2, g2).0, d1, g1).0;
    assert t.records.Keys == {1, 2} && t.records[1].demandGwh == g2 && t.records[2].date == d1;
    assert Latest(t).id == 1;
    TwoYearsFromLatest(t, currentYear, project);
  }

  /** A forecast with an out-of-range horizon fails with InvalidYears
      (for instance 6 and -1). */
  lemma OutOfRangeHorizonFails(s: State, currentYear: int, project: (real, nat) -> real)
    requires Valid(s)
    ensures Forecast(s, 6, currentYear, project) == Err(InvalidYears)
    ensures Forecast(s, -1, currentYear, project) == Err(InvalidYears)
  {
  }
}
