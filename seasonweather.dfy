/** Chart 1's table: the filtered daily rows grouped by (season,
    weather_condition) with total_users summed, then the weather codes
    replaced by their Indonesian labels. */
module SeasonWeather {
  import opened Records
  import GroupBy

  /** A row of the aggregate before the label map: the raw weather code. */
  datatype SeasonWeatherTotal = SeasonWeatherTotal(season: int, weatherCondition: string, totalUsers: nat)

  /** A row after the label map; a code the map does not know gives a missing label. */
  datatype LabelledTotal = LabelledTotal(season: int, weatherLabel: Option<string>, totalUsers: nat)

  /** The sum of total_users over the rows with this season and weather code. */
  function UsersWith(days: seq<DailyRecord>, season: int, weather: string): nat
  {
    if days == [] then 0
    else (if days[0].season == season && days[0].weatherCondition == weather then days[0].totalUsers else 0)
         + UsersWith(days[1..], season, weather)
  }

  /** The sum of total_users over all rows. */
  function TotalUsers(days: seq<DailyRecord>): nat
  {
    if days == [] then 0 else days[0].totalUsers + TotalUsers(days[1..])
  }

  /** The (season, weather code) pairs that occur in the rows. */
  function Pairs(days: seq<DailyRecord>): set<(int, string)>
  {
    set d | d in days :: (d.season, d.weatherCondition)
  }

  function TotalsPairs(rows: seq<SeasonWeatherTotal>): set<(int, string)>
  {
    set t | t in rows :: (t.season, t.weatherCondition)
  }

  function SumTotals(rows: seq<SeasonWeatherTotal>): nat
  {
    if rows == [] then 0 else rows[0].totalUsers + SumTotals(rows[1..])
  }

  /** Each daily row as the group-by sees it. */
  function SeasonObs(days: seq<DailyRecord>): seq<GroupBy.Obs>
  {
    if days == [] then []
    else [GroupBy.Obs(GroupBy.Key(days[0].season, days[0].weatherCondition), days[0].totalUsers)]
         + SeasonObs(days[1..])
  }

  lemma {:induction false} SeasonObsMeaning(days: seq<DailyRecord>, season: int, weather: string)
    ensures GroupBy.Sum(GroupBy.Values(SeasonObs(days), GroupBy.Key(season, weather))) == UsersWith(days, season, weather)
    ensures GroupBy.ObsTotal(SeasonObs(days)) == TotalUsers(days)
  {
    if days != [] {
      SeasonObsMeaning(days[1..], season, weather);
      var obs := SeasonObs(days);
      assert obs[1..] == SeasonObs(days[1..]);
      var k := GroupBy.Key(season, weather);
      if obs[0].key == k {
        var vs := GroupBy.Values(obs, k);
        assert vs == [obs[0].value] + GroupBy.Values(obs[1..], k);
        assert vs[1..] == GroupBy.Values(obs[1..], k);
      }
    }
  }

  lemma {:induction false} SeasonObsKeys(days: seq<DailyRecord>)
    ensures GroupBy.AsPairs(GroupBy.ObsKeys(SeasonObs(days))) == Pairs(days)
  {
    if days != [] {
      SeasonObsKeys(days[1..]);
      var obs := SeasonObs(days);
      assert obs == [obs[0]] + SeasonObs(days[1..]);
      assert GroupBy.ObsKeys(obs) == {obs[0].key} + GroupBy.ObsKeys(SeasonObs(days[1..]));
      assert days == [days[0]] + days[1..];
      assert Pairs(days) == {(days[0].season, days[0].weatherCondition)} + Pairs(days[1..]);
    }
  }

  function ToTotals(gs: seq<GroupBy.Group>): (r: seq<SeasonWeatherTotal>)
    ensures |r| == |gs|
    ensures forall i :: 0 <= i < |gs| ==> r[i] == SeasonWeatherTotal(gs[i].key.major, gs[i].key.minor, gs[i].sum)
  {
    seq(|gs|, i requires 0 <= i < |gs| => SeasonWeatherTotal(gs[i].key.major, gs[i].key.minor, gs[i].sum))
  }

  lemma {:induction false} ToTotalsSum(gs: seq<GroupBy.Group>)
    ensures SumTotals(ToTotals(gs)) == GroupBy.TotalOf(gs)
  {
    if gs != [] {
      ToTotalsSum(gs[1..]);
      assert ToTotals(gs)[1..] == ToTotals(gs[1..]);
    }
  }

  /** `groupby(['season', 'weather_condition']).agg({'total_users': 'sum'})`
      followed by `reset_index()`. */
  function SeasonWeatherTotals(days: seq<DailyRecord>): seq<SeasonWeatherTotal>
  {
    ToTotals(GroupBy.Aggregate(SeasonObs(days)))
  }

  /** The aggregate comes out sorted by season, then by weather code as a string. */
  lemma TotalsSorted(days: seq<DailyRecord>)
    ensures var r := SeasonWeatherTotals(days);
      forall i, j :: 0 <= i < j < |r| ==>
        r[i].season < r[j].season
        || (r[i].season == r[j].season && GroupBy.StrLess(r[i].weatherCondition, r[j].weatherCondition))
  {
    GroupBy.AggregateSpec(SeasonObs(days));
  }

  /** One row per (season, weather code) pair present in the input, and no
      other: absent pairs are not filled in with zero. */
  lemma TotalsOnePerPair(days: seq<DailyRecord>)
    ensures TotalsPairs(SeasonWeatherTotals(days)) == Pairs(days)
    ensures |SeasonWeatherTotals(days)| == |Pairs(days)|
  {
    var obs := SeasonObs(days);
    var gs := GroupBy.Aggregate(obs);
    GroupBy.AggregateSpec(obs);
    GroupBy.AggregateGroups(obs);
    TotalsPairsOf(gs);
    SeasonObsKeys(days);
    GroupBy.AsPairsSize(GroupBy.ObsKeys(obs));
  }

  lemma TotalsPairsOf(gs: seq<GroupBy.Group>)
    ensures TotalsPairs(ToTotals(gs)) == GroupBy.AsPairs(GroupBy.GroupKeys(gs))
  {
    var r := ToTotals(gs);
    forall p | p in GroupBy.AsPairs(GroupBy.GroupKeys(gs))
      ensures p in TotalsPairs(r)
    {
      var k :| k in GroupBy.GroupKeys(gs) && p == (k.major, k.minor);
      var g :| g in gs && g.key == k;
      var i :| 0 <= i < |gs| && gs[i] == g;
      assert r[i] in r;
    }
    forall p | p in TotalsPairs(r)
      ensures p in GroupBy.AsPairs(GroupBy.GroupKeys(gs))
    {
      var t :| t in r && (t.season, t.weatherCondition) == p;
      var i :| 0 <= i < |r| && r[i] == t;
      assert gs[i] in gs;
      assert gs[i].key in GroupBy.GroupKeys(gs);
    }
  }

  /** Each row's total is the sum of total_users over the input rows with its
      season and weather code. */
  lemma TotalsPerPair(days: seq<DailyRecord>)
    ensures forall t :: t in SeasonWeatherTotals(days) ==> t.totalUsers == UsersWith(days, t.season, t.weatherCondition)
  {
    var obs := SeasonObs(days);
    var gs := GroupBy.Aggregate(obs);
    var r := ToTotals(gs);
    GroupBy.AggregateSpec(obs);
    GroupBy.AggregateGroups(obs);
    forall i | 0 <= i < |r|
      ensures r[i].totalUsers == UsersWith(days, r[i].season, r[i].weatherCondition)
    {
      SeasonObsMeaning(days, gs[i].key.major, gs[i].key.minor);
    }
  }

  /** Grouping loses and invents nothing: the totals add up to the input's total. */
  lemma TotalsConserved(days: seq<DailyRecord>)
    ensures SumTotals(SeasonWeatherTotals(days)) == TotalUsers(days)
  {
    var gs := GroupBy.Aggregate(SeasonObs(days));
    GroupBy.AggregateSpec(SeasonObs(days));
    ToTotalsSum(gs);
    SeasonObsMeaning(days, 0, "");
  }

  /** The label dictionary of the chart legend. */
  const WeatherLabels: map<string, string> := map["1" := "Cerah", "2" := "Berkabut", "3" := "Hujan"]

  /** `Series.map(dict)` on one value: the label of a known code, missing otherwise. */
  function WeatherLabel(code: string): (l: Option<string>)
    ensures l == Some("Cerah") <==> code == "1"
    ensures l == Some("Berkabut") <==> code == "2"
    ensures l == Some("Hujan") <==> code == "3"
    ensures l == None <==> code !in {"1", "2", "3"}
  {
    if code in WeatherLabels then Some(WeatherLabels[code]) else None
  }

  /** Replaces the weather column by its labels; season and total stay as they were. */
  function Relabel(rows: seq<SeasonWeatherTotal>): (r: seq<LabelledTotal>)
    ensures |r| == |rows|
    ensures forall i :: 0 <= i < |rows| ==>
      && r[i].season == rows[i].season
      && r[i].totalUsers == rows[i].totalUsers
      && r[i].weatherLabel == WeatherLabel(rows[i].weatherCondition)
  {
    seq(|rows|, i requires 0 <= i < |rows| =>
      LabelledTotal(rows[i].season, WeatherLabel(rows[i].weatherCondition), rows[i].totalUsers))
  }

  function SumLabelled(rows: seq<LabelledTotal>): nat
  {
    if rows == [] then 0 else rows[0].totalUsers + SumLabelled(rows[1..])
  }

  /** The label map does not touch the totals. */
  lemma {:induction false} RelabelKeepsTotal(rows: seq<SeasonWeatherTotal>)
    ensures SumLabelled(Relabel(rows)) == SumTotals(rows)
  {
    if rows != [] {
      RelabelKeepsTotal(rows[1..]);
      assert Relabel(rows)[1..] == Relabel(rows[1..]);
    }
  }

  /** When every code is one the map knows, every row gets a label, and rows
      with distinct (season, code) keep distinct (season, label): the labelled
      table still has one row per pair. */
  lemma RelabelKeepsPairsDistinct(rows: seq<SeasonWeatherTotal>)
    requires forall i :: 0 <= i < |rows| ==> rows[i].weatherCondition in WeatherLabels
    requires forall i, j :: 0 <= i < j < |rows| ==>
      (rows[i].season, rows[i].weatherCondition) != (rows[j].season, rows[j].weatherCondition)
    ensures var r := Relabel(rows);
      forall i :: 0 <= i < |r| ==> r[i].weatherLabel.Some?
    ensures var r := Relabel(rows);
      forall i, j :: 0 <= i < j < |r| ==>
        r[i].weatherLabel.Some? && (r[i].season, r[i].weatherLabel) != (r[j].season, r[j].weatherLabel)
  {
  }

  /** Lines 40-46 together: the season/weather chart's table. */
  function SeasonWeatherUsage(days: seq<DailyRecord>): seq<LabelledTotal>
  {
    Relabel(SeasonWeatherTotals(days))
  }

  /** The chart's bars add up to the users of the selected days. */
  lemma SeasonWeatherUsageConserved(days: seq<DailyRecord>)
    ensures SumLabelled(SeasonWeatherUsage(days)) == TotalUsers(days)
  {
    RelabelKeepsTotal(SeasonWeatherTotals(days));
    TotalsConserved(days);
  }

  /** With known codes only, no two bars share a (season, label). */
  lemma SeasonWeatherUsageDistinct(days: seq<DailyRecord>)
    requires forall d :: d in days ==> d.weatherCondition in WeatherLabels
    ensures var r := SeasonWeatherUsage(days);
      forall i, j :: 0 <= i < j < |r| ==> (r[i].season, r[i].weatherLabel) != (r[j].season, r[j].weatherLabel)
  {
    var t := SeasonWeatherTotals(days);
    TotalsSorted(days);
    TotalsOnePerPair(days);
    forall i | 0 <= i < |t|
      ensures t[i].weatherCondition in WeatherLabels
    {
      assert t[i] in t;
      assert (t[i].season, t[i].weatherCondition) in TotalsPairs(t);
      var d :| d in days && (d.season, d.weatherCondition) == (t[i].season, t[i].weatherCondition);
    }
    forall i, j | 0 <= i < j < |t|
      ensures (t[i].season, t[i].weatherCondition) != (t[j].season, t[j].weatherCondition)
    {
      GroupBy.StrLessIrreflexive(t[i].weatherCondition);
    }
    RelabelKeepsPairsDistinct(t);
  }
}
