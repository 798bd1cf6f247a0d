/** `StatsController.getDashboardStats`: the metrics behind `GET /api/v1/stats/dashboard`. */
module StatsController {
  import opened Wrappers
  import opened Calendar
  import opened JsNumber
  import opened Records
  import opened Responses
  import opened StatsRepository

  /** `month = parseInt(month, 10) || today's month`; it is not range-checked. */
  function MonthOf(query: QueryString, today: Date): int {
    OrDefault(ParseParam(Param(query, "month"), 10), today.month)
  }

  /** `year = parseInt(year, 10) || today's year`. */
  function YearOf(query: QueryString, today: Date): int {
    OrDefault(ParseParam(Param(query, "year"), 10), today.year)
  }

  /** `today` is the date the request is served on; `monthName` the locale's short month names. */
  function GetDashboardStats(state: StoreState, query: QueryString, today: Date,
                             monthName: YearMonth -> string): Response<Metrics>
  {
    match state
    case Failing(error) => Fail(500, "Failed to fetch dashboard statistics", Some(FailureDetail(error)))
    case Available(store) =>
      Ok(DashboardSpec(store, MonthOf(query, today), YearOf(query, today), monthName),
         "Dashboard statistics fetched successfully")
  }

  /** A readable store answers with the metrics of the month asked for, whose chart has a
      bucket per day of that month and whose columns add up to the totals; a failing store
      answers 500 with the error's message. Dates beyond the range of JavaScript's `Date` are
      not modelled: every integer year is taken to name a calendar year. */
  lemma DashboardOutcome(state: StoreState, query: QueryString, today: Date, monthName: YearMonth -> string)
    ensures var r := GetDashboardStats(state, query, today, monthName);
            match state
            case Failing(error) =>
              r == Fail(500, "Failed to fetch dashboard statistics", Some(FailureDetail(error)))
            case Available(store) =>
              && r.Ok? && r.message == "Dashboard statistics fetched successfully"
              && |r.data.chartData| == DaysInMonth(YearOf(query, today), MonthOf(query, today))
              && DepositColumn(r.data.chartData) == r.data.totalDeposit
              && WithdrawColumn(r.data.chartData) == r.data.totalWithdraw
  {
    if state.Available? {
      ChartHasEveryDay(state.store, MonthOf(query, today), YearOf(query, today), monthName);
      ColumnsMatchTotals(state.store, MonthOf(query, today), YearOf(query, today), monthName);
    }
  }

  /** Without parameters, the current month of the current year. */
  lemma NoParamsThisMonth(query: QueryString, today: Date)
    requires "month" !in query && "year" !in query
    ensures MonthOf(query, today) == today.month && YearOf(query, today) == today.year
  {
    AbsentParamIsNaN();
  }

  /** A decimal month and year are read as written; `0` falls back to today's. */
  lemma ExplicitMonth(query: QueryString, today: Date, month: int, year: int)
    requires "month" in query && query["month"] == IntString(month)
    requires "year" in query && query["year"] == IntString(year)
    ensures MonthOf(query, today) == if month == 0 then today.month else month
    ensures YearOf(query, today) == if year == 0 then today.year else year
  {
    ParseIntDecimal(month, "");
    ParseIntDecimal(year, "");
    assert IntString(month) + "" == IntString(month);
    assert IntString(year) + "" == IntString(year);
  }
}
