/** `getChartData`: the sorted list of scrape weeks and, per municipality,
    its year-to-date percentage change aligned on those weeks. */
module Charts {
  import opened Wrappers
  import opened Strings
  import opened Sorting
  import opened Records

  /** The key of the default `sort()`: the string itself. */
  function Id(s: string): string { s }

  /** `data.map(d => d.scrape_week)`. */
  function Weeks(data: seq<MuniRecord>): seq<string>
  {
    seq(|data|, k requires 0 <= k < |data| => data[k].scrapeWeek)
  }

  /** `[...new Set(weeks)].sort()`. */
  function ChartWeeks(data: seq<MuniRecord>): seq<string>
  {
    SortBy(Distinct(Weeks(data)), Id)
  }

  /** The chart's weeks strictly increase (so none is repeated), each is a
      scrape week of the input, and every scrape week of the input is one. */
  lemma ChartWeeksSpec(data: seq<MuniRecord>)
    ensures StrictlySortedBy(ChartWeeks(data), Id)
    ensures forall i :: 0 <= i < |ChartWeeks(data)| ==> ChartWeeks(data)[i] in Weeks(data)
    ensures forall k :: 0 <= k < |data| ==> data[k].scrapeWeek in ChartWeeks(data)
  {
    var d := Distinct(Weeks(data));
    var w := ChartWeeks(data);
    SortByStrict(d, Id);
    forall i | 0 <= i < |w| ensures w[i] in Weeks(data) {
      assert w[i] in multiset(d);
    }
    forall k | 0 <= k < |data| ensures data[k].scrapeWeek in w {
      assert Weeks(data)[k] == data[k].scrapeWeek;
      assert data[k].scrapeWeek in multiset(d);
    }
  }

  /** `muniData.find(d => d.scrape_week === week)`: the first record of the
      week, if there is one. */
  function FindWeek(muniData: seq<MuniRecord>, week: string): (r: Option<MuniRecord>)
    ensures r.None? <==> forall j :: 0 <= j < |muniData| ==> muniData[j].scrapeWeek != week
    ensures r.Some? ==> r.value in muniData && r.value.scrapeWeek == week
    ensures r.Some? ==> HeadIs(KeyFilter(muniData, WeekOf, week), r.value)
  {
    if muniData == [] then None
    else if muniData[0].scrapeWeek == week then Some(muniData[0])
    else
      var r := FindWeek(muniData[1..], week);
      assert forall j :: 1 <= j < |muniData| ==> muniData[j] == muniData[1..][j - 1];
      r
  }

  /** `record?.taxable_value_ytd_pct ?? null` for the first record of the
      week: absent when there is no such record or its value is null. */
  function YtdPctAt(muniData: seq<MuniRecord>, week: string): Option<Num>
  {
    match FindWeek(muniData, week)
    case Some(d) => d.taxableValueYtdPct
    case None => None
  }

  /** `weeks.map(week => ...)` for one municipality. */
  function SeriesFor(muniData: seq<MuniRecord>, weeks: seq<string>): seq<Option<Num>>
  {
    seq(|weeks|, i requires 0 <= i < |weeks| => YtdPctAt(muniData, weeks[i]))
  }

  /** The value a municipality's series holds for one week: the year-to-date
      percentage of the first of its records with that week, in input order,
      or none when it has no record for the week. */
  function Aligned(data: seq<MuniRecord>, m: string, week: string): Option<Num>
  {
    var f := KeyFilter(Filter(data, InMunicipality(m)), WeekOf, week);
    if f == [] then None else f[0].taxableValueYtdPct
  }

  lemma {:induction false} KeyFilterEmpty(s: seq<MuniRecord>, week: string)
    ensures KeyFilter(s, WeekOf, week) == [] <==>
      forall j :: 0 <= j < |s| ==> s[j].scrapeWeek != week
  {
    if s != [] {
      KeyFilterEmpty(s[1..], week);
      assert forall j :: 1 <= j < |s| ==> s[j] == s[1..][j - 1];
    }
  }

  /** The lookup `find` performs agrees with the first record of the week. */
  lemma YtdPctAligned(data: seq<MuniRecord>, m: string, week: string)
    ensures YtdPctAt(Filter(data, InMunicipality(m)), week) == Aligned(data, m, week)
  {
    KeyFilterEmpty(Filter(data, InMunicipality(m)), week);
  }

  lemma SeriesAligned(data: seq<MuniRecord>, m: string, weeks: seq<string>)
    ensures forall i :: 0 <= i < |weeks| ==>
      SeriesFor(Filter(data, InMunicipality(m)), weeks)[i] == Aligned(data, m, weeks[i])
  {
    forall i | 0 <= i < |weeks| {
      YtdPctAligned(data, m, weeks[i]);
    }
  }

  /** A map holding `SeriesFor` for exactly the distinct municipality names
      holds, for exactly the input's municipalities, the aligned values. */
  lemma SeriesComplete(data: seq<MuniRecord>, weeks: seq<string>, series: map<string, seq<Option<Num>>>)
    requires forall m :: m in series <==> m in Distinct(Names(data))
    requires forall m :: m in series ==> series[m] == SeriesFor(Filter(data, InMunicipality(m)), weeks)
    ensures forall m :: m in series <==> m in Names(data)
    ensures forall m :: m in series ==> |series[m]| == |weeks|
    ensures forall m, i :: m in series && 0 <= i < |weeks| ==> series[m][i] == Aligned(data, m, weeks[i])
  {
    forall m ensures m in series <==> m in Names(data) {
      DistinctHas(Names(data), m);
    }
    forall m | m in series
      ensures forall i :: 0 <= i < |weeks| ==> series[m][i] == Aligned(data, m, weeks[i])
    {
      SeriesAligned(data, m, weeks);
    }
  }

  /** The loop of `getChartData`: one series per listed municipality, keyed
      by its name. */
  method BuildSeries(data: seq<MuniRecord>, weeks: seq<string>, municipalities: seq<string>)
    returns (series: map<string, seq<Option<Num>>>)
    ensures forall m :: m in series <==> m in municipalities
    ensures forall m :: m in series ==> series[m] == SeriesFor(Filter(data, InMunicipality(m)), weeks)
  {
    series := map[];
    for n := 0 to |municipalities|
      invariant forall m :: m in series <==> m in municipalities[..n]
      invariant forall m :: m in series ==> series[m] == SeriesFor(Filter(data, InMunicipality(m)), weeks)
    {
      var muni := municipalities[n];
      assert municipalities[..n + 1] == municipalities[..n] + [muni];
      series := series[muni := SeriesFor(Filter(data, InMunicipality(muni)), weeks)];
    }
    assert municipalities[..|municipalities|] == municipalities;
  }

  /** `getChartData(data)`: the sorted distinct weeks, and for each distinct
      municipality a series as long as the weeks whose entry `i` is the
      year-to-date percentage of its first record of week `i`. */
  method GetChartData(data: seq<MuniRecord>) returns (weeks: seq<string>, series: map<string, seq<Option<Num>>>)
    ensures weeks == ChartWeeks(data)
    ensures forall m :: m in series <==> m in Names(data)
    ensures forall m :: m in series ==> |series[m]| == |weeks|
    ensures forall m, i :: m in series && 0 <= i < |weeks| ==> series[m][i] == Aligned(data, m, weeks[i])
  {
    weeks := ChartWeeks(data);
    series := BuildSeries(data, weeks, Distinct(Names(data)));
    SeriesComplete(data, weeks, series);
  }
}
