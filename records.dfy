/** The rows of the two tables the dashboard reads, as they stand after
    loading: a date is a day number, a user count is a natural number and a
    weather condition is the string code the daily table carries. Only the
    columns that the filter, the season/weather sum and the hourly mean read
    are kept. */
module Records {

  /** A value that may be missing (pandas' NaN in an object or float column). */
  datatype Option<+T> = None | Some(value: T)

  /** One row of the daily table. */
  datatype DailyRecord = DailyRecord(
    date: int,
    season: int,
    weatherCondition: string,
    totalUsers: nat,
    workingday: int)

  /** One row of the hourly table. */
  datatype HourlyRecord = HourlyRecord(date: int, hr: int, totalUsers: nat)
}
