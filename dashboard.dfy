/** The dashboard script's pipeline: both tables restricted to the selected
    date range, then the season/weather totals and the hourly means by day
    type computed from the restricted tables. */
module Dashboard {
  import opened Records
  import DateFilter
  import SeasonWeather
  import HourlyUsage
  import GroupBy

  function DailyDate(d: DailyRecord): int { d.date }

  function HourlyDate(h: HourlyRecord): int { h.date }

  /** `main_day_df`: the daily rows of the selected range. */
  function SelectDays(days: seq<DailyRecord>, start: int, end: int): seq<DailyRecord>
  {
    DateFilter.Filter(days, DailyDate, start, end)
  }

  /** `main_hour_df`: the hourly rows of the same range. */
  function SelectHours(hours: seq<HourlyRecord>, start: int, end: int): seq<HourlyRecord>
  {
    DateFilter.Filter(hours, HourlyDate, start, end)
  }

  /** The two tables handed to the charts. */
  datatype Views = Views(
    seasonWeather: seq<SeasonWeather.LabelledTotal>,
    hourlyUsage: seq<HourlyUsage.HourlyMean>)

  /** One run of the script for the range [start, end]. */
  function Refresh(days: seq<DailyRecord>, hours: seq<HourlyRecord>, start: int, end: int): Views
  {
    var selectedDays := SelectDays(days, start, end);
    var selectedHours := SelectHours(hours, start, end);
    Views(
      SeasonWeather.SeasonWeatherUsage(selectedDays),
      HourlyUsage.HourlyUsageByDayType(selectedHours, selectedDays))
  }

  /** An empty selection is no error: it gives an empty table, and a non-empty
      one gives a non-empty table; a reversed range selects nothing. */
  lemma EmptySelectionEmptyViews(days: seq<DailyRecord>, hours: seq<HourlyRecord>, start: int, end: int)
    ensures var v := Refresh(days, hours, start, end);
      && (v.seasonWeather == [] <==> SelectDays(days, start, end) == [])
      && (v.hourlyUsage == [] <==> SelectHours(hours, start, end) == [])
      && (end < start ==> v.seasonWeather == [] && v.hourlyUsage == [])
  {
    var d := SelectDays(days, start, end);
    var h := SelectHours(hours, start, end);
    SeasonWeather.TotalsOnePerPair(d);
    if d != [] {
      assert (d[0].season, d[0].weatherCondition) in SeasonWeather.Pairs(d);
    }
    var t := HourlyUsage.DayTyped(h, d);
    HourlyUsage.LeftJoinSound(h, d);
    HourlyUsage.MeansOnePerPair(t);
    if t != [] {
      assert (t[0].hr, t[0].dayType) in HourlyUsage.HourPairs(t);
    }
  }

  /** Restricting the range keeps daily dates unique. */
  lemma SelectedDatesUnique(days: seq<DailyRecord>, start: int, end: int)
    requires HourlyUsage.UniqueDates(days)
    ensures HourlyUsage.UniqueDates(SelectDays(days, start, end))
  {
    DateFilter.FilterSelects(days, DailyDate, start, end);
  }

  /** For a date inside the range, the restricted daily table has a row of
      that date, or a working-day row of that date, exactly when the full one does. */
  lemma SelectionKeepsDay(days: seq<DailyRecord>, start: int, end: int, date: int)
    requires DateFilter.InRange(date, start, end)
    ensures HourlyUsage.HasDay(SelectDays(days, start, end), date) <==> HourlyUsage.HasDay(days, date)
    ensures HourlyUsage.IsWorkingDay(SelectDays(days, start, end), date) <==> HourlyUsage.IsWorkingDay(days, date)
  {
    var sd := SelectDays(days, start, end);
    DateFilter.FilterSelects(days, DailyDate, start, end);
    var idx := DateFilter.InRangeIndices(days, DailyDate, start, end);
    if j :| 0 <= j < |days| && days[j].date == date {
      assert j in idx;
      var k :| 0 <= k < |idx| && idx[k] == j;
      assert sd[k] == days[j];
    }
    if k :| 0 <= k < |sd| && sd[k].date == date {
      assert sd[k] == days[idx[k]];
    }
  }

  /** With unique daily dates, every selected hourly row gets exactly one typed
      row, in order, and it is 'Hari Kerja' exactly when the daily table has a
      row of that date with workingday 1: since both tables are restricted to
      the same range, the restriction never hides the day an hour belongs to.
      An hour whose date has no daily row is 'Hari Libur'. */
  lemma SelectedHoursDayType(days: seq<DailyRecord>, hours: seq<HourlyRecord>, start: int, end: int)
    requires HourlyUsage.UniqueDates(days)
    ensures var sh := SelectHours(hours, start, end);
            var t := HourlyUsage.DayTyped(sh, SelectDays(days, start, end));
      && |t| == |sh|
      && (forall i :: 0 <= i < |t| ==> t[i].hr == sh[i].hr && t[i].totalUsers == sh[i].totalUsers)
      && (forall i :: 0 <= i < |t| ==> (t[i].dayType == HourlyUsage.Workday <==> HourlyUsage.IsWorkingDay(days, sh[i].date)))
      && (forall i :: 0 <= i < |t| && !HourlyUsage.HasDay(days, sh[i].date) ==> t[i].dayType == HourlyUsage.Holiday)
  {
    var sd := SelectDays(days, start, end);
    var sh := SelectHours(hours, start, end);
    SelectedDatesUnique(days, start, end);
    HourlyUsage.DayTypedRows(sh, sd);
    forall i | 0 <= i < |sh|
      ensures HourlyUsage.HasDay(sd, sh[i].date) <==> HourlyUsage.HasDay(days, sh[i].date)
      ensures HourlyUsage.IsWorkingDay(sd, sh[i].date) <==> HourlyUsage.IsWorkingDay(days, sh[i].date)
    {
      assert DateFilter.InRange(HourlyDate(sh[i]), start, end);
      SelectionKeepsDay(days, start, end, sh[i].date);
    }
  }

  /** Two days of season 0, one clear with 100 users on a working day and one
      misty with 50 on a holiday, and one hour-8 row on each. */
  const ExampleDays: seq<DailyRecord> := [DailyRecord(0, 0, "1", 100, 1), DailyRecord(1, 0, "2", 50, 0)]
  const ExampleHours: seq<HourlyRecord> := [HourlyRecord(0, 8, 30), HourlyRecord(1, 8, 10)]

  lemma ExampleSelection()
    ensures SelectDays(ExampleDays, 0, 1) == ExampleDays
    ensures SelectHours(ExampleHours, 0, 1) == ExampleHours
  {
    assert ExampleDays[..1] == [ExampleDays[0]];
    assert ExampleHours[..1] == [ExampleHours[0]];
  }

  /** Over the full range the season/weather table has one bar per weather
      code, labelled and in code order. */
  lemma ExampleSeasonWeather()
    ensures Refresh(ExampleDays, ExampleHours, 0, 1).seasonWeather
      == [SeasonWeather.LabelledTotal(0, Some("Cerah"), 100), SeasonWeather.LabelledTotal(0, Some("Berkabut"), 50)]
  {
    ExampleSelection();
    var obs := SeasonWeather.SeasonObs(ExampleDays);
    var clear := GroupBy.Key(0, "1");
    var mist := GroupBy.Key(0, "2");
    assert obs == [GroupBy.Obs(clear, 100), GroupBy.Obs(mist, 50)];
    assert obs[1..] == [GroupBy.Obs(mist, 50)];
    assert GroupBy.Aggregate(obs[1..]) == [GroupBy.Group(mist, 50, 1)];
    assert GroupBy.KeyLess(clear, mist);
    assert GroupBy.Aggregate(obs) == [GroupBy.Group(clear, 100, 1), GroupBy.Group(mist, 50, 1)];
    var totals := SeasonWeather.SeasonWeatherTotals(ExampleDays);
    assert totals == [SeasonWeather.SeasonWeatherTotal(0, "1", 100), SeasonWeather.SeasonWeatherTotal(0, "2", 50)];
  }

  /** 'Hari Kerja' sorts before 'Hari Libur'. */
  lemma DayTypeOrder()
    ensures GroupBy.StrLess(HourlyUsage.Workday, HourlyUsage.Holiday)
  {
    var w, h := HourlyUsage.Workday, HourlyUsage.Holiday;
    assert w[5..] == "Kerja" && h[5..] == "Libur";
    assert GroupBy.StrLess(w[5..], h[5..]);
    assert w[4..][1..] == w[5..] && h[4..][1..] == h[5..];
    assert GroupBy.StrLess(w[4..], h[4..]);
    assert w[3..][1..] == w[4..] && h[3..][1..] == h[4..];
    assert GroupBy.StrLess(w[3..], h[3..]);
    assert w[2..][1..] == w[3..] && h[2..][1..] == h[3..];
    assert GroupBy.StrLess(w[2..], h[2..]);
    assert w[1..][1..] == w[2..] && h[1..][1..] == h[2..];
    assert GroupBy.StrLess(w[1..], h[1..]);
  }

  /** The first hour falls on the working day, the second on the holiday. */
  lemma ExampleDayTyped()
    ensures HourlyUsage.DayTyped(ExampleHours, ExampleDays)
      == [HourlyUsage.TypedRow(8, 30, "Hari Kerja"), HourlyUsage.TypedRow(8, 10, "Hari Libur")]
  {
    var joined := HourlyUsage.LeftJoin(ExampleHours, ExampleDays);
    assert HourlyUsage.Matches(ExampleDays, 0) == [1];
    assert HourlyUsage.Matches(ExampleDays, 1) == [0];
    assert ExampleHours[1..] == [HourlyRecord(1, 8, 10)];
    assert HourlyUsage.LeftJoin(ExampleHours[1..], ExampleDays) == [HourlyUsage.JoinedRow(1, 8, 10, Some(0))];
    assert joined == [HourlyUsage.JoinedRow(0, 8, 30, Some(1)), HourlyUsage.JoinedRow(1, 8, 10, Some(0))];
  }

  lemma HourObsTwo(r1: HourlyUsage.TypedRow, r2: HourlyUsage.TypedRow)
    ensures HourlyUsage.HourObs([r1, r2])
      == [GroupBy.Obs(GroupBy.Key(r1.hr, r1.dayType), r1.totalUsers), GroupBy.Obs(GroupBy.Key(r2.hr, r2.dayType), r2.totalUsers)]
  {
    var rows := [r1, r2];
    assert rows[1..] == [r2];
    assert rows[1..][1..] == [];
    assert HourlyUsage.HourObs(rows[1..]) == [GroupBy.Obs(GroupBy.Key(r2.hr, r2.dayType), r2.totalUsers)];
  }

  lemma ToMeansTwo(k1: GroupBy.Key, v1: nat, k2: GroupBy.Key, v2: nat)
    ensures HourlyUsage.ToMeans([GroupBy.Group(k1, v1, 1), GroupBy.Group(k2, v2, 1)])
      == [HourlyUsage.HourlyMean(k1.major, k1.minor, v1 as real), HourlyUsage.HourlyMean(k2.major, k2.minor, v2 as real)]
  {
    var means := HourlyUsage.ToMeans([GroupBy.Group(k1, v1, 1), GroupBy.Group(k2, v2, 1)]);
    assert means[0] == HourlyUsage.HourlyMean(k1.major, k1.minor, v1 as real / 1 as real);
    assert means[1] == HourlyUsage.HourlyMean(k2.major, k2.minor, v2 as real / 1 as real);
  }

  /** At one hour, a working-day row and a holiday row make two groups, in
      day-type order, each averaging its single row. */
  lemma HourlyMeansOfTwoDayTypes(hr: int, work: nat, off: nat)
    ensures HourlyUsage.HourlyMeans([HourlyUsage.TypedRow(hr, work, HourlyUsage.Workday), HourlyUsage.TypedRow(hr, off, HourlyUsage.Holiday)])
      == [HourlyUsage.HourlyMean(hr, HourlyUsage.Workday, work as real), HourlyUsage.HourlyMean(hr, HourlyUsage.Holiday, off as real)]
  {
    var wk := GroupBy.Key(hr, HourlyUsage.Workday);
    var hk := GroupBy.Key(hr, HourlyUsage.Holiday);
    HourObsTwo(HourlyUsage.TypedRow(hr, work, HourlyUsage.Workday), HourlyUsage.TypedRow(hr, off, HourlyUsage.Holiday));
    DayTypeOrder();
    GroupBy.AggregateTwo(wk, work, hk, off);
    ToMeansTwo(wk, work, hk, off);
  }

  /** Over the full range the hourly table has one point per day type at hour
      8: the working day's 30 users and the holiday's 10. */
  lemma ExampleHourlyUsage()
    ensures Refresh(ExampleDays, ExampleHours, 0, 1).hourlyUsage
      == [HourlyUsage.HourlyMean(8, "Hari Kerja", 30.0), HourlyUsage.HourlyMean(8, "Hari Libur", 10.0)]
  {
    ExampleSelection();
    ExampleDayTyped();
    HourlyMeansOfTwoDayTypes(8, 30, 10);
  }
}
