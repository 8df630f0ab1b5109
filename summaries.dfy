/** `calculateSummaries`: one row per municipality, comparing the latest
    assessed value with the value at the start of the current year. */
module Summaries {
  import opened Wrappers
  import opened Strings
  import opened Sorting
  import opened Records

  /** The flat record `calculateSummaries` builds for one municipality. */
  datatype Summary = Summary(
    municipality: string,
    startOfYearValue: int,
    currentValue: int,
    change: int,
    pctChange: real,
    dataAsOf: string)

  function NameOf(s: Summary): string { s.municipality }

  /** One municipality's records, sorted by scrape week. */
  function MuniData(data: seq<MuniRecord>, m: string): seq<MuniRecord>
  {
    SortBy(Filter(data, InMunicipality(m)), WeekOf)
  }

  /** `yearData[0] || muniData[0]`: the first record of the current year,
      else the first record, absent when there is none. */
  function StartRecord(muniData: seq<MuniRecord>, year: int): Option<MuniRecord>
  {
    var yearData := Filter(muniData, InYear(year));
    if yearData != [] then Some(yearData[0])
    else if muniData != [] then Some(muniData[0])
    else None
  }

  /** `muniData[muniData.length - 1]`, absent when there is none. */
  function CurrentRecord(muniData: seq<MuniRecord>): Option<MuniRecord>
  {
    if muniData != [] then Some(Last(muniData)) else None
  }

  /** The summary of municipality `m`; a missing record reads as value 0 and
      an empty date, as the optional chaining does. */
  function SummaryFor(data: seq<MuniRecord>, m: string, year: int): Summary
  {
    var muniData := MuniData(data, m);
    var start := StartRecord(muniData, year);
    var current := CurrentRecord(muniData);
    var startValue := if start.Some? then start.value.taxableValue else 0;
    var currentValue := if current.Some? then current.value.taxableValue else 0;
    var change := currentValue - startValue;
    Summary(
      m, startValue, currentValue, change,
      if startValue > 0 then change as real / startValue as real * 100.0 else 0.0,
      if current.Some? then current.value.valueAsOfDate else "")
  }

  /** `calculateSummaries(data)` with the clock's year passed in as `year`. */
  function CalculateSummaries(data: seq<MuniRecord>, year: int): seq<Summary>
  {
    SortBy(SummariesOf(data, Distinct(Names(data)), year), NameOf)
  }

  /** The names of a list of summaries, in order. */
  function SummaryNames(r: seq<Summary>): seq<string>
  {
    seq(|r|, i requires 0 <= i < |r| => r[i].municipality)
  }

  /** One summary per name of `ms`, in the order of `ms`. */
  function SummariesOf(data: seq<MuniRecord>, ms: seq<string>, year: int): seq<Summary>
  {
    seq(|ms|, i requires 0 <= i < |ms| => SummaryFor(data, ms[i], year))
  }

  lemma SummaryForName(data: seq<MuniRecord>, m: string, year: int)
    ensures SummaryFor(data, m, year).municipality == m
  {
  }

  /** The result is sorted by name and no name occurs twice. */
  lemma SummariesSortedByName(data: seq<MuniRecord>, year: int)
    ensures StrictlySortedBy(CalculateSummaries(data, year), NameOf)
  {
    var ms := Distinct(Names(data));
    var u := SummariesOf(data, ms, year);
    forall i, j | 0 <= i < j < |u| ensures NameOf(u[i]) != NameOf(u[j]) {
      SummaryForName(data, ms[i], year);
      SummaryForName(data, ms[j], year);
    }
    SortByStrict(u, NameOf);
  }

  /** Each summary is the summary of its own name, and that name is one of
      the input's municipalities. */
  lemma SummariesAreOwn(data: seq<MuniRecord>, year: int, i: nat)
    requires i < |CalculateSummaries(data, year)|
    ensures var s := CalculateSummaries(data, year)[i];
      s == SummaryFor(data, s.municipality, year) && s.municipality in Names(data)
  {
    var ms := Distinct(Names(data));
    var u := SummariesOf(data, ms, year);
    var s := CalculateSummaries(data, year)[i];
    assert s in multiset(u);
    var j :| 0 <= j < |u| && u[j] == s;
    SummaryForName(data, ms[j], year);
  }

  /** Every municipality of the input has a summary. */
  lemma SummariesCover(data: seq<MuniRecord>, year: int, k: nat)
    requires k < |data|
    ensures data[k].municipality in SummaryNames(CalculateSummaries(data, year))
  {
    var ms := Distinct(Names(data));
    var u := SummariesOf(data, ms, year);
    var m := data[k].municipality;
    assert Names(data)[k] == m;
    var j :| 0 <= j < |ms| && ms[j] == m;
    SummaryForName(data, m, year);
    NameSurvivesSort(u, u[j]);
  }

  lemma NameSurvivesSort(u: seq<Summary>, s: Summary)
    requires s in u
    ensures s.municipality in SummaryNames(SortBy(u, NameOf))
  {
    var r := SortBy(u, NameOf);
    assert s in multiset(r);
    var i :| 0 <= i < |r| && r[i] == s;
    assert SummaryNames(r)[i] == s.municipality;
  }

  /** There is one summary per distinct municipality of the input and no
      other, each is the summary of its own name, and the list is sorted by
      name with no name twice. */
  lemma CalculateSummariesSpec(data: seq<MuniRecord>, year: int)
    ensures StrictlySortedBy(CalculateSummaries(data, year), NameOf)
    ensures forall i :: 0 <= i < |CalculateSummaries(data, year)| ==>
      var s := CalculateSummaries(data, year)[i];
      s == SummaryFor(data, s.municipality, year) && s.municipality in Names(data)
    ensures forall k :: 0 <= k < |data| ==>
      data[k].municipality in SummaryNames(CalculateSummaries(data, year))
  {
    SummariesSortedByName(data, year);
    forall i | 0 <= i < |CalculateSummaries(data, year)|
      ensures var s := CalculateSummaries(data, year)[i];
        s == SummaryFor(data, s.municipality, year) && s.municipality in Names(data)
    {
      SummariesAreOwn(data, year, i);
    }
    forall k | 0 <= k < |data|
      ensures data[k].municipality in SummaryNames(CalculateSummaries(data, year))
    {
      SummariesCover(data, year, k);
    }
  }

  /** The week order of one municipality's records: every record of `m` in
      the input is there, nothing else is, and the weeks never decrease. */
  lemma MuniDataSpec(data: seq<MuniRecord>, m: string, x: MuniRecord)
    ensures SortedBy(MuniData(data, m), WeekOf)
    ensures x in MuniData(data, m) <==> x in data && x.municipality == m
  {
    SortBySorted(Filter(data, InMunicipality(m)), WeekOf);
    assert x in MuniData(data, m) <==> x in multiset(Filter(data, InMunicipality(m)));
    FilterHas(data, InMunicipality(m), x);
  }

  /** When `m` has a record of the current year, the baseline is a record
      of `m` of that year whose week is the earliest among them; of the
      records of `m` and that year with that week it is the first in input
      order; and its value is the summary's start-of-year value. */
  lemma {:induction false} StartOfYearBaseline(data: seq<MuniRecord>, m: string, year: int, k: nat)
    requires k < |data| && data[k].municipality == m && data[k].year == year
    ensures StartRecord(MuniData(data, m), year).Some?
    ensures var start := StartRecord(MuniData(data, m), year).value;
      && start in data && start.municipality == m && start.year == year
      && HeadIs(KeyFilter(Filter(Filter(data, InMunicipality(m)), InYear(year)), WeekOf, start.scrapeWeek), start)
      && SummaryFor(data, m, year).startOfYearValue == start.taxableValue
    ensures forall j :: 0 <= j < |data| && data[j].municipality == m && data[j].year == year ==>
      Le(StartRecord(MuniData(data, m), year).value.scrapeWeek, data[j].scrapeWeek)
  {
    var own := Filter(data, InMunicipality(m));
    var muniData := MuniData(data, m);
    var yearData := Filter(muniData, InYear(year));
    MuniDataSpec(data, m, data[k]);
    FilterHas(muniData, InYear(year), data[k]);
    var start := yearData[0];
    assert StartRecord(muniData, year) == Some(start);
    FilterHas(muniData, InYear(year), start);
    MuniDataSpec(data, m, start);
    FilterSorted(muniData, InYear(year), WeekOf);
    forall j | 0 <= j < |data| && data[j].municipality == m && data[j].year == year
      ensures Le(start.scrapeWeek, data[j].scrapeWeek)
    {
      MuniDataSpec(data, m, data[j]);
      FilterHas(muniData, InYear(year), data[j]);
      SortedFirstLeast(yearData, WeekOf, data[j]);
    }
    var w := start.scrapeWeek;
    assert HeadIs(KeyFilter(yearData, WeekOf, w), start) by {
      assert yearData == [start] + yearData[1..];
    }
    SortByStable(own, WeekOf, w);
    FilterKeyFilter(muniData, InYear(year), WeekOf, w);
    FilterKeyFilter(own, InYear(year), WeekOf, w);
  }

  /** With no record of the current year, the baseline is the record of `m`
      with the earliest week, the first in input order among those with that
      week, and its value is the summary's start-of-year value. */
  lemma {:induction false} FallbackBaseline(data: seq<MuniRecord>, m: string, year: int, k: nat)
    requires k < |data| && data[k].municipality == m
    requires forall j :: 0 <= j < |data| && data[j].municipality == m ==> data[j].year != year
    ensures StartRecord(MuniData(data, m), year).Some?
    ensures var start := StartRecord(MuniData(data, m), year).value;
      && start in data && start.municipality == m
      && HeadIs(KeyFilter(Filter(data, InMunicipality(m)), WeekOf, start.scrapeWeek), start)
      && SummaryFor(data, m, year).startOfYearValue == start.taxableValue
    ensures forall j :: 0 <= j < |data| && data[j].municipality == m ==>
      Le(StartRecord(MuniData(data, m), year).value.scrapeWeek, data[j].scrapeWeek)
  {
    var own := Filter(data, InMunicipality(m));
    var muniData := MuniData(data, m);
    MuniDataSpec(data, m, data[k]);
    NoYearData(data, m, year);
    var start := muniData[0];
    assert StartRecord(muniData, year) == Some(start);
    MuniDataSpec(data, m, start);
    forall j | 0 <= j < |data| && data[j].municipality == m
      ensures Le(start.scrapeWeek, data[j].scrapeWeek)
    {
      MuniDataSpec(data, m, data[j]);
      SortedFirstLeast(muniData, WeekOf, data[j]);
    }
    var w := start.scrapeWeek;
    assert HeadIs(KeyFilter(muniData, WeekOf, w), start) by {
      assert muniData == [start] + muniData[1..];
    }
    SortByStable(own, WeekOf, w);
  }

  lemma NoYearData(data: seq<MuniRecord>, m: string, year: int)
    requires forall j :: 0 <= j < |data| && data[j].municipality == m ==> data[j].year != year
    ensures Filter(MuniData(data, m), InYear(year)) == []
  {
    var yearData := Filter(MuniData(data, m), InYear(year));
    if yearData != [] {
      FilterHas(MuniData(data, m), InYear(year), yearData[0]);
      MuniDataSpec(data, m, yearData[0]);
      assert false;
    }
  }

  /** The current record is a record of `m` with the latest week, the last in
      input order among those with that week, and it supplies the summary's
      current value and date. */
  lemma {:induction false} LatestRecord(data: seq<MuniRecord>, m: string, year: int, k: nat)
    requires k < |data| && data[k].municipality == m
    ensures CurrentRecord(MuniData(data, m)).Some?
    ensures var current := CurrentRecord(MuniData(data, m)).value;
      && current in data && current.municipality == m
      && LastIs(KeyFilter(Filter(data, InMunicipality(m)), WeekOf, current.scrapeWeek), current)
      && SummaryFor(data, m, year).currentValue == current.taxableValue
      && SummaryFor(data, m, year).dataAsOf == current.valueAsOfDate
    ensures forall j :: 0 <= j < |data| && data[j].municipality == m ==>
      Le(data[j].scrapeWeek, CurrentRecord(MuniData(data, m)).value.scrapeWeek)
  {
    var own := Filter(data, InMunicipality(m));
    var muniData := MuniData(data, m);
    MuniDataSpec(data, m, data[k]);
    var current := Last(muniData);
    assert CurrentRecord(muniData) == Some(current);
    MuniDataSpec(data, m, current);
    forall j | 0 <= j < |data| && data[j].municipality == m
      ensures Le(data[j].scrapeWeek, current.scrapeWeek)
    {
      MuniDataSpec(data, m, data[j]);
      SortedLastGreatest(muniData, WeekOf, data[j]);
    }
    KeyFilterLast(muniData, WeekOf);
    SortByStable(own, WeekOf, current.scrapeWeek);
  }

  /** `change` is the current value less the baseline; `pctChange` is 0 for
      a baseline that is not positive, and otherwise the percentage that,
      added to the baseline, gives the current value. */
  lemma ChangeArithmetic(data: seq<MuniRecord>, m: string, year: int)
    ensures var s := SummaryFor(data, m, year);
      && s.change == s.currentValue - s.startOfYearValue
      && (s.startOfYearValue <= 0 ==> s.pctChange == 0.0)
      && (s.startOfYearValue > 0 ==>
            s.startOfYearValue as real + s.startOfYearValue as real * s.pctChange / 100.0
            == s.currentValue as real)
      && (s.startOfYearValue > 0 ==> (s.pctChange > 0.0 <==> s.currentValue > s.startOfYearValue))
  {
    var s := SummaryFor(data, m, year);
    if s.startOfYearValue > 0 {
      var b := s.startOfYearValue as real;
      var c := s.change as real;
      assert s.pctChange == c / b * 100.0;
      assert b * s.pctChange / 100.0 == c;
    }
  }
}
