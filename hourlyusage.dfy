/** Chart 3's table: the filtered hourly rows left-joined on date to the
    filtered daily rows to pick up their working-day flag, each row classed as
    a working day or a holiday, and total_users averaged per (hour, day type). */
module HourlyUsage {
  import opened Records
  import GroupBy

  /** An hourly row after the merge: the daily flag it found, or missing. */
  datatype JoinedRow = JoinedRow(date: int, hr: int, totalUsers: nat, dayWorkingday: Option<int>)

  /** An hourly row with its day type. */
  datatype TypedRow = TypedRow(hr: int, totalUsers: nat, dayType: string)

  /** A row of the line chart's table. */
  datatype HourlyMean = HourlyMean(hr: int, dayType: string, meanUsers: real)

  const Workday: string := "Hari Kerja"
  const Holiday: string := "Hari Libur"

  /** The working-day flags of the daily rows dated `date`, in daily order. */
  function Matches(days: seq<DailyRecord>, date: int): seq<int>
  {
    if days == [] then []
    else (if days[0].date == date then [days[0].workingday] else []) + Matches(days[1..], date)
  }

  /** A merged row carries the date, hour and users of hourly row `h`. */
  predicate FromHour(x: JoinedRow, h: HourlyRecord)
  {
    x.date == h.date && x.hr == h.hr && x.totalUsers == h.totalUsers
  }

  /** The rows one hourly row contributes to a left merge: one per matching
      daily row, or one with a missing flag when nothing matches. */
  function JoinOne(h: HourlyRecord, flags: seq<int>): (r: seq<JoinedRow>)
    ensures |r| == if flags == [] then 1 else |flags|
    ensures forall k :: 0 <= k < |r| ==> FromHour(r[k], h)
    ensures flags == [] ==> r[0].dayWorkingday == None
    ensures forall k :: 0 <= k < |flags| ==> r[k].dayWorkingday == Some(flags[k])
  {
    if flags == [] then [JoinedRow(h.date, h.hr, h.totalUsers, None)]
    else seq(|flags|, i requires 0 <= i < |flags| => JoinedRow(h.date, h.hr, h.totalUsers, Some(flags[i])))
  }

  /** `hours.merge(days[['date', 'workingday']], on='date', how='left')`. */
  function LeftJoin(hours: seq<HourlyRecord>, days: seq<DailyRecord>): seq<JoinedRow>
  {
    if hours == [] then [] else JoinOne(hours[0], Matches(days, hours[0].date)) + LeftJoin(hours[1..], days)
  }

  /** Some daily row is dated `date`. */
  predicate HasDay(days: seq<DailyRecord>, date: int)
  {
    exists j :: 0 <= j < |days| && days[j].date == date
  }

  /** Some daily row dated `date` has workingday 1. */
  predicate IsWorkingDay(days: seq<DailyRecord>, date: int)
  {
    exists j :: 0 <= j < |days| && days[j].date == date && days[j].workingday == 1
  }

  /** No two daily rows share a date. */
  predicate UniqueDates(days: seq<DailyRecord>)
  {
    forall i, j :: 0 <= i < j < |days| ==> days[i].date != days[j].date
  }

  lemma {:induction false} MatchesUnique(days: seq<DailyRecord>, date: int)
    requires UniqueDates(days)
    ensures Matches(days, date) == [] <==> !HasDay(days, date)
    ensures forall j :: 0 <= j < |days| && days[j].date == date ==> Matches(days, date) == [days[j].workingday]
  {
    if days != [] {
      assert UniqueDates(days[1..]);
      MatchesUnique(days[1..], date);
      if days[0].date == date {
        assert forall j :: 0 < j < |days| ==> days[j].date != date;
        assert Matches(days[1..], date) == [];
      }
    }
  }

  /** A joined row's flag, when it has one, is that of a daily row with its date. */
  predicate FlagFromDays(x: JoinedRow, days: seq<DailyRecord>)
  {
    x.dayWorkingday.Some? ==> exists d :: d in days && d.date == x.date && d.workingday == x.dayWorkingday.value
  }

  lemma JoinOneSound(h: HourlyRecord, days: seq<DailyRecord>)
    ensures forall x :: x in JoinOne(h, Matches(days, h.date)) ==> FlagFromDays(x, days)
  {
    var flags := Matches(days, h.date);
    var one := JoinOne(h, flags);
    forall x | x in one
      ensures FlagFromDays(x, days)
    {
      var i :| 0 <= i < |one| && one[i] == x;
      if flags != [] {
        assert x == JoinedRow(h.date, h.hr, h.totalUsers, Some(flags[i]));
        assert flags[i] in flags;
        MatchesFrom(days, h.date, flags[i]);
      }
    }
  }

  /** A left merge drops no hourly row and invents none: every hourly row's
      date, hour and users appear in it, every merged row carries those of
      some hourly row, and every flag it finds comes from a daily row with the
      same date. */
  lemma LeftJoinSound(hours: seq<HourlyRecord>, days: seq<DailyRecord>)
    ensures |LeftJoin(hours, days)| >= |hours|
    ensures forall i :: 0 <= i < |hours| ==> exists x :: x in LeftJoin(hours, days) && FromHour(x, hours[i])
    ensures forall x :: x in LeftJoin(hours, days) ==> exists i :: 0 <= i < |hours| && FromHour(x, hours[i])
    ensures forall x :: x in LeftJoin(hours, days) ==> FlagFromDays(x, days)
  {
    LeftJoinFlags(hours, days);
    forall i | 0 <= i < |hours|
      ensures exists x :: x in LeftJoin(hours, days) && FromHour(x, hours[i])
    {
      LeftJoinKeepsHour(hours, days, i);
    }
    forall x | x in LeftJoin(hours, days)
      ensures exists i :: 0 <= i < |hours| && FromHour(x, hours[i])
    {
      LeftJoinRowFromHour(hours, days, x);
    }
  }

  lemma {:induction false} LeftJoinFlags(hours: seq<HourlyRecord>, days: seq<DailyRecord>)
    ensures |LeftJoin(hours, days)| >= |hours|
    ensures forall x :: x in LeftJoin(hours, days) ==> FlagFromDays(x, days)
  {
    if hours != [] {
      LeftJoinFlags(hours[1..], days);
      JoinOneSound(hours[0], days);
    }
  }

  lemma {:induction false} LeftJoinKeepsHour(hours: seq<HourlyRecord>, days: seq<DailyRecord>, i: nat)
    requires i < |hours|
    ensures exists x :: x in LeftJoin(hours, days) && FromHour(x, hours[i])
  {
    var one := JoinOne(hours[0], Matches(days, hours[0].date));
    var rest := LeftJoin(hours[1..], days);
    assert LeftJoin(hours, days) == one + rest;
    if i == 0 {
      assert one[0] in LeftJoin(hours, days);
    } else {
      LeftJoinKeepsHour(hours[1..], days, i - 1);
      assert hours[1..][i - 1] == hours[i];
      var x :| x in rest && FromHour(x, hours[i]);
      assert x in LeftJoin(hours, days);
    }
  }

  lemma {:induction false} LeftJoinRowFromHour(hours: seq<HourlyRecord>, days: seq<DailyRecord>, x: JoinedRow)
    requires x in LeftJoin(hours, days)
    ensures exists i :: 0 <= i < |hours| && FromHour(x, hours[i])
  {
    var one := JoinOne(hours[0], Matches(days, hours[0].date));
    var rest := LeftJoin(hours[1..], days);
    assert LeftJoin(hours, days) == one + rest;
    if x in one {
      var k :| 0 <= k < |one| && one[k] == x;
      assert FromHour(x, hours[0]);
    } else {
      LeftJoinRowFromHour(hours[1..], days, x);
      var i :| 0 <= i < |hours[1..]| && FromHour(x, hours[1..][i]);
      assert FromHour(x, hours[i + 1]);
    }
  }

  lemma {:induction false} MatchesFrom(days: seq<DailyRecord>, date: int, f: int)
    requires f in Matches(days, date)
    ensures exists d :: d in days && d.date == date && d.workingday == f
  {
    if days[0].date == date && f == days[0].workingday {
      assert days[0] in days;
    } else {
      assert f in Matches(days[1..], date);
      MatchesFrom(days[1..], date, f);
      var d :| d in days[1..] && d.date == date && d.workingday == f;
      assert d in days;
    }
  }

  /** With unique daily dates the merge is one-to-one: one row per hourly row,
      in order, carrying the flag of the daily row with its date, or a missing
      flag when there is none. */
  lemma {:induction false} LeftJoinOneToOne(hours: seq<HourlyRecord>, days: seq<DailyRecord>)
    requires UniqueDates(days)
    ensures var r := LeftJoin(hours, days);
      && |r| == |hours|
      && (forall i :: 0 <= i < |r| ==>
            r[i].date == hours[i].date && r[i].hr == hours[i].hr && r[i].totalUsers == hours[i].totalUsers)
      && (forall i :: 0 <= i < |r| ==>
            (r[i].dayWorkingday == None <==> !HasDay(days, hours[i].date)))
      && (forall i, j :: 0 <= i < |r| && 0 <= j < |days| && days[j].date == hours[i].date ==>
            r[i].dayWorkingday == Some(days[j].workingday))
  {
    var r := LeftJoin(hours, days);
    LeftJoinLength(hours, days);
    forall i | 0 <= i < |r|
      ensures r[i].date == hours[i].date && r[i].hr == hours[i].hr && r[i].totalUsers == hours[i].totalUsers
      ensures r[i].dayWorkingday == None <==> !HasDay(days, hours[i].date)
      ensures forall j :: 0 <= j < |days| && days[j].date == hours[i].date ==> r[i].dayWorkingday == Some(days[j].workingday)
    {
      LeftJoinAt(hours, days, i);
      MatchesUnique(days, hours[i].date);
    }
  }

  lemma {:induction false} LeftJoinLength(hours: seq<HourlyRecord>, days: seq<DailyRecord>)
    requires UniqueDates(days)
    ensures |LeftJoin(hours, days)| == |hours|
  {
    if hours != [] {
      LeftJoinLength(hours[1..], days);
      MatchesUnique(days, hours[0].date);
    }
  }

  lemma {:induction false} LeftJoinAt(hours: seq<HourlyRecord>, days: seq<DailyRecord>, i: nat)
    requires UniqueDates(days) && i < |hours|
    ensures |LeftJoin(hours, days)| == |hours|
    ensures LeftJoin(hours, days)[i] == JoinOne(hours[i], Matches(days, hours[i].date))[0]
  {
    LeftJoinLength(hours, days);
    MatchesUnique(days, hours[0].date);
    var one := JoinOne(hours[0], Matches(days, hours[0].date));
    assert |one| == 1;
    assert LeftJoin(hours, days) == one + LeftJoin(hours[1..], days);
    if i > 0 {
      LeftJoinAt(hours[1..], days, i - 1);
      assert hours[1..][i - 1] == hours[i];
    }
  }

  /** `'Hari Kerja' if x == 1 else 'Hari Libur'`: a missing flag is not 1. */
  function DayType(flag: Option<int>): string
  {
    if flag == Some(1) then Workday else Holiday
  }

  /** Adds the day type column: hour and users are kept, a row is a working
      day exactly when its flag is present and 1, and a holiday otherwise. */
  function Classify(joined: seq<JoinedRow>): (r: seq<TypedRow>)
    ensures |r| == |joined|
    ensures forall i :: 0 <= i < |joined| ==>
      && r[i].hr == joined[i].hr
      && r[i].totalUsers == joined[i].totalUsers
      && (r[i].dayType == Workday <==> joined[i].dayWorkingday == Some(1))
      && (r[i].dayType == Holiday <==> joined[i].dayWorkingday != Some(1))
  {
    assert Workday[5] != Holiday[5];
    seq(|joined|, i requires 0 <= i < |joined| =>
      TypedRow(joined[i].hr, joined[i].totalUsers, DayType(joined[i].dayWorkingday)))
  }

  /** Lines 97-99: the hourly rows with their day types. */
  function DayTyped(hours: seq<HourlyRecord>, days: seq<DailyRecord>): seq<TypedRow>
  {
    Classify(LeftJoin(hours, days))
  }

  /** With unique daily dates: one typed row per hourly row, in order; a row is
      'Hari Kerja' exactly when the daily row of its date has workingday 1, and
      'Hari Libur' otherwise, in particular when no daily row has its date. */
  lemma DayTypedRows(hours: seq<HourlyRecord>, days: seq<DailyRecord>)
    requires UniqueDates(days)
    ensures var t := DayTyped(hours, days);
      && |t| == |hours|
      && (forall i :: 0 <= i < |t| ==> t[i].hr == hours[i].hr && t[i].totalUsers == hours[i].totalUsers)
      && (forall i :: 0 <= i < |t| ==>
            (t[i].dayType == Workday <==> IsWorkingDay(days, hours[i].date)))
      && (forall i :: 0 <= i < |t| ==> t[i].dayType == Workday || t[i].dayType == Holiday)
      && (forall i :: 0 <= i < |t| && !HasDay(days, hours[i].date) ==> t[i].dayType == Holiday)
  {
    LeftJoinOneToOne(hours, days);
    var r := LeftJoin(hours, days);
    var t := Classify(r);
    forall i | 0 <= i < |t|
      ensures t[i].dayType == Workday <==> IsWorkingDay(days, hours[i].date)
    {
      if t[i].dayType == Workday {
        assert r[i].dayWorkingday == Some(1);
        var j :| 0 <= j < |days| && days[j].date == hours[i].date;
      }
    }
  }

  /** The total_users of the typed rows with this hour and day type, in row order. */
  function UsersAt(rows: seq<TypedRow>, hr: int, dayType: string): seq<nat>
  {
    if rows == [] then []
    else (if rows[0].hr == hr && rows[0].dayType == dayType then [rows[0].totalUsers] else [])
         + UsersAt(rows[1..], hr, dayType)
  }

  /** The (hour, day type) pairs that occur in the rows. */
  function HourPairs(rows: seq<TypedRow>): set<(int, string)>
  {
    set t | t in rows :: (t.hr, t.dayType)
  }

  function MeansPairs(means: seq<HourlyMean>): set<(int, string)>
  {
    set m | m in means :: (m.hr, m.dayType)
  }

  /** Each typed row as the group-by sees it. */
  function HourObs(rows: seq<TypedRow>): seq<GroupBy.Obs>
  {
    if rows == [] then []
    else [GroupBy.Obs(GroupBy.Key(rows[0].hr, rows[0].dayType), rows[0].totalUsers)] + HourObs(rows[1..])
  }

  lemma {:induction false} HourObsMeaning(rows: seq<TypedRow>, hr: int, dayType: string)
    ensures GroupBy.Values(HourObs(rows), GroupBy.Key(hr, dayType)) == UsersAt(rows, hr, dayType)
  {
    if rows != [] {
      HourObsMeaning(rows[1..], hr, dayType);
      assert HourObs(rows)[1..] == HourObs(rows[1..]);
    }
  }

  lemma {:induction false} HourObsKeys(rows: seq<TypedRow>)
    ensures GroupBy.AsPairs(GroupBy.ObsKeys(HourObs(rows))) == HourPairs(rows)
  {
    if rows != [] {
      HourObsKeys(rows[1..]);
      var obs := HourObs(rows);
      assert obs == [obs[0]] + HourObs(rows[1..]);
      assert GroupBy.ObsKeys(obs) == {obs[0].key} + GroupBy.ObsKeys(HourObs(rows[1..]));
      assert rows == [rows[0]] + rows[1..];
      assert HourPairs(rows) == {(rows[0].hr, rows[0].dayType)} + HourPairs(rows[1..]);
    }
  }

  function ToMeans(gs: seq<GroupBy.Group>): (r: seq<HourlyMean>)
    requires forall i :: 0 <= i < |gs| ==> gs[i].count > 0
    ensures |r| == |gs|
    ensures forall i :: 0 <= i < |gs| ==>
      r[i] == HourlyMean(gs[i].key.major, gs[i].key.minor, gs[i].sum as real / gs[i].count as real)
  {
    seq(|gs|, i requires 0 <= i < |gs| =>
      HourlyMean(gs[i].key.major, gs[i].key.minor, gs[i].sum as real / gs[i].count as real))
  }

  /** `groupby(['hr', 'day_type']).agg({'total_users': 'mean'})` followed by `reset_index()`. */
  function HourlyMeans(rows: seq<TypedRow>): seq<HourlyMean>
  {
    GroupBy.AggregateNoEmptyGroup(HourObs(rows));
    ToMeans(GroupBy.Aggregate(HourObs(rows)))
  }

  /** The table comes out sorted by hour, then by day type as a string. */
  lemma MeansSorted(rows: seq<TypedRow>)
    ensures var r := HourlyMeans(rows);
      forall i, j :: 0 <= i < j < |r| ==>
        r[i].hr < r[j].hr || (r[i].hr == r[j].hr && GroupBy.StrLess(r[i].dayType, r[j].dayType))
  {
    GroupBy.AggregateSpec(HourObs(rows));
  }

  lemma MeansPairsOf(gs: seq<GroupBy.Group>)
    requires forall i :: 0 <= i < |gs| ==> gs[i].count > 0
    ensures MeansPairs(ToMeans(gs)) == GroupBy.AsPairs(GroupBy.GroupKeys(gs))
  {
    var r := ToMeans(gs);
    forall p | p in GroupBy.AsPairs(GroupBy.GroupKeys(gs))
      ensures p in MeansPairs(r)
    {
      var k :| k in GroupBy.GroupKeys(gs) && p == (k.major, k.minor);
      var g :| g in gs && g.key == k;
      var i :| 0 <= i < |gs| && gs[i] == g;
      assert r[i] in r;
    }
    forall p | p in MeansPairs(r)
      ensures p in GroupBy.AsPairs(GroupBy.GroupKeys(gs))
    {
      var m :| m in r && (m.hr, m.dayType) == p;
      var i :| 0 <= i < |r| && r[i] == m;
      assert gs[i] in gs;
      assert gs[i].key in GroupBy.GroupKeys(gs);
    }
  }

  /** One row per (hour, day type) pair present, and no other. */
  lemma MeansOnePerPair(rows: seq<TypedRow>)
    ensures MeansPairs(HourlyMeans(rows)) == HourPairs(rows)
    ensures |HourlyMeans(rows)| == |HourPairs(rows)|
  {
    var obs := HourObs(rows);
    var gs := GroupBy.Aggregate(obs);
    GroupBy.AggregateSpec(obs);
    MeansPairsOf(gs);
    HourObsKeys(rows);
    GroupBy.AggregateGroups(obs);
    GroupBy.AsPairsSize(GroupBy.ObsKeys(obs));
  }

  /** Each row's value is the mean of total_users over the rows with its hour
      and day type (a group is never empty); it lies between the smallest and
      the largest of them, and equals the value itself when there is only one. */
  lemma MeansWithinGroup(rows: seq<TypedRow>)
    ensures forall m :: m in HourlyMeans(rows) ==>
      var us := UsersAt(rows, m.hr, m.dayType);
      && us != []
      && m.meanUsers == GroupBy.Mean(us)
      && GroupBy.Min(us) as real <= m.meanUsers <= GroupBy.Max(us) as real
      && (|us| == 1 ==> m.meanUsers == us[0] as real)
  {
    var obs := HourObs(rows);
    var gs := GroupBy.Aggregate(obs);
    GroupBy.AggregateSpec(obs);
    GroupBy.AggregateGroups(obs);
    var r := ToMeans(gs);
    forall i | 0 <= i < |r|
      ensures var us := UsersAt(rows, r[i].hr, r[i].dayType);
        && us != []
        && r[i].meanUsers == GroupBy.Mean(us)
        && GroupBy.Min(us) as real <= r[i].meanUsers <= GroupBy.Max(us) as real
        && (|us| == 1 ==> r[i].meanUsers == us[0] as real)
    {
      HourObsMeaning(rows, gs[i].key.major, gs[i].key.minor);
      GroupBy.MeanWithin(UsersAt(rows, r[i].hr, r[i].dayType));
    }
  }

  /** Lines 97-102 together: the line chart's table. */
  function HourlyUsageByDayType(hours: seq<HourlyRecord>, days: seq<DailyRecord>): seq<HourlyMean>
  {
    HourlyMeans(DayTyped(hours, days))
  }
}
