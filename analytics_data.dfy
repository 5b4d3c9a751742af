/** The `useAnalyticsData` hook: a week of adherence or pain statistics,
    navigated a week at a time and titled by its date range. Dates are day
    numbers; `civil` gives a day's calendar date in the device's time zone,
    and month names are left as month numbers (two dates share a short month
    name exactly when they share a month, within one week). */
module AnalyticsData {
  import opened Wrappers

  datatype CalendarDate = CalendarDate(year: int, month: int, day: int)

  datatype DataType = Adherence | Pain

  /** `{ labels, datasets: [{ data }] }`. */
  datatype ChartData = ChartData(labels: seq<string>, datasets: seq<seq<real>>)

  /** The statistics response body. */
  datatype Stats<T> = Stats(chart: ChartData, averageAdherence: real, averagePain: real, history: seq<T>)

  /** How a `fetchData` call ends: no client, a response (whose body may be
      empty), or a failed request. */
  datatype FetchResult<T> = NoClient | Response(data: Option<Stats<T>>) | RequestFailed

  /** The title over the chart. */
  datatype WeekTitle =
    | CurrentWeek
    | SameMonth(month: int, startDay: int, endDay: int)                    // "M d1 - d2"
    | TwoMonths(startMonth: int, startDay: int, endMonth: int, endDay: int) // "M1 d1 - M2 d2"

  const Weekdays: seq<string> := ["Mon", "Tue", "Wed", "Thu", "Fri", "Sat", "Sun"]

  /** The chart before any data arrives. */
  function InitialChart(): (c: ChartData)
    ensures c.labels == Weekdays && |c.datasets| == 1
    ensures |c.datasets[0]| == |c.labels| && forall k :: 0 <= k < |c.datasets[0]| ==> c.datasets[0][k] == 0.0
  {
    ChartData(Weekdays, [[0.0, 0.0, 0.0, 0.0, 0.0, 0.0, 0.0]])
  }

  /** The first day of the week ending on `end`: six days earlier, so the
      window holds seven days counting both ends. */
  function WindowStart(end: int): (start: int)
    ensures end - start + 1 == 7
  {
    end - 6
  }

  /** `updateWeekTitle(endDate)` read at `today`. */
  function WeekTitleFor(civil: int -> CalendarDate, end: int, today: int): (t: WeekTitle)
    ensures t.CurrentWeek? <==> civil(end) == civil(today)
    ensures t.SameMonth? ==>
      && civil(WindowStart(end)).month == civil(end).month
      && t == SameMonth(civil(end).month, civil(WindowStart(end)).day, civil(end).day)
    ensures t.TwoMonths? ==>
      && civil(WindowStart(end)).month != civil(end).month
      && t == TwoMonths(civil(WindowStart(end)).month, civil(WindowStart(end)).day, civil(end).month, civil(end).day)
  {
    var s, e := civil(WindowStart(end)), civil(end);
    var n := civil(today);
    if n.day == e.day && n.month == e.month && n.year == e.year then CurrentWeek
    else if s.month == e.month then SameMonth(e.month, s.day, e.day)
    else TwoMonths(s.month, s.day, e.month, e.day)
  }

  /** The end date one week later, never past `today`. */
  function NextWeekEnd(end: int, today: int): (r: int)
    ensures r <= today || r == end + 7
    ensures r == end + 7 || r == today
    ensures end + 7 <= today ==> r == end + 7
    ensures r <= end + 7
  {
    if end + 7 > today then today else end + 7
  }

  /** From any end date not after `today`, a week back and a week forward
      returns to it. */
  lemma PreviousThenNext(end: int, today: int)
    requires end <= today
    ensures NextWeekEnd(end - 7, today) == end
  {
  }

  /** The average the hook shows: adherence for the adherence chart, pain
      for any other. */
  function SelectAverage<T>(dataType: DataType, s: Stats<T>): (avg: real)
    ensures dataType == Adherence ==> avg == s.averageAdherence
    ensures dataType == Pain ==> avg == s.averagePain
  {
    if dataType == Adherence then s.averageAdherence else s.averagePain
  }

  /** The error text of a failed request. */
  function LoadError(dataType: DataType): string
  {
    "Failed to load your " + (if dataType == Adherence then "exercises" else "pain data") +
    ". Please check your connection and try again."
  }

  class AnalyticsView<T> {
    const dataType: DataType
    /** The device calendar. */
    const civil: int -> CalendarDate
    var loading: bool
    var chartData: ChartData
    var average: real
    var history: seq<T>
    var error: Option<string>
    var currentEndDate: int
    var weekTitle: WeekTitle
    /** The `end_date` of every statistics request, oldest first. */
    var fetched: seq<int>

    /** The hook's first render on day `today`. */
    constructor (dataType: DataType, civil: int -> CalendarDate, today: int)
      ensures this.dataType == dataType && this.civil == civil
      ensures loading && chartData == InitialChart() && average == 0.0 && history == [] && error.None?
      ensures currentEndDate == today && weekTitle == CurrentWeek && fetched == []
    {
      this.dataType, this.civil := dataType, civil;
      loading, chartData, average, history, error := true, InitialChart(), 0.0, [], None;
      currentEndDate, weekTitle, fetched := today, CurrentWeek, [];
    }

    /** `fetchData(endDate)` with the request's result given. */
    method FetchData(endDate: int, result: FetchResult<T>)
      modifies this
      ensures currentEndDate == old(currentEndDate) && weekTitle == old(weekTitle) && !loading
      ensures fetched == old(fetched) + (if result.NoClient? then [] else [endDate])
      ensures result.Response? && result.data.Some? ==>
        && chartData == result.data.value.chart
        && average == SelectAverage(dataType, result.data.value)
        && history == result.data.value.history
        && error == old(error)
      ensures !(result.Response? && result.data.Some?) ==>
        chartData == old(chartData) && average == old(average) && history == old(history)
      ensures result.RequestFailed? ==> error == Some(LoadError(dataType))
      ensures !result.RequestFailed? ==> error == old(error)
    {
      loading := true;
      match result {
        case NoClient =>
        case Response(data) =>
          fetched := fetched + [endDate];
          if data.Some? {
            chartData := data.value.chart;
            average := SelectAverage(dataType, data.value);
            history := data.value.history;
          }
        case RequestFailed =>
          fetched := fetched + [endDate];
          error := Some(LoadError(dataType));
      }
      loading := false;
    }

    /** `updateWeekTitle(endDate)` read at `today`. */
    method UpdateWeekTitle(endDate: int, today: int)
      modifies this
      ensures weekTitle == WeekTitleFor(civil, endDate, today)
      ensures currentEndDate == old(currentEndDate) && fetched == old(fetched) && loading == old(loading)
      ensures chartData == old(chartData) && average == old(average) && history == old(history) && error == old(error)
    {
      weekTitle := WeekTitleFor(civil, endDate, today);
    }

    /** `goToPreviousWeek()` at `today`: the end date moves back exactly
        seven days and that week is fetched and titled. */
    method GoToPreviousWeek(today: int, result: FetchResult<T>)
      modifies this
      ensures currentEndDate == old(currentEndDate) - 7
      ensures weekTitle == WeekTitleFor(civil, currentEndDate, today)
      ensures fetched == old(fetched) + (if result.NoClient? then [] else [currentEndDate])
      ensures !loading
      ensures result.Response? && result.data.Some? ==>
        && chartData == result.data.value.chart
        && average == SelectAverage(dataType, result.data.value)
        && history == result.data.value.history
      ensures !(result.Response? && result.data.Some?) ==>
        chartData == old(chartData) && average == old(average) && history == old(history)
      ensures error == if result.RequestFailed? then Some(LoadError(dataType)) else old(error)
    {
      var newEndDate := currentEndDate - 7;
      currentEndDate := newEndDate;
      FetchData(newEndDate, result);
      UpdateWeekTitle(newEndDate, today);
    }

    /** `goToNextWeek()` at `today`: the end date moves forward seven days
        but never past today. */
    method GoToNextWeek(today: int, result: FetchResult<T>)
      modifies this
      ensures currentEndDate == NextWeekEnd(old(currentEndDate), today)
      ensures currentEndDate <= today
      ensures weekTitle == WeekTitleFor(civil, currentEndDate, today)
      ensures fetched == old(fetched) + (if result.NoClient? then [] else [currentEndDate])
      ensures !loading
      ensures result.Response? && result.data.Some? ==>
        && chartData == result.data.value.chart
        && average == SelectAverage(dataType, result.data.value)
        && history == result.data.value.history
      ensures !(result.Response? && result.data.Some?) ==>
        chartData == old(chartData) && average == old(average) && history == old(history)
      ensures error == if result.RequestFailed? then Some(LoadError(dataType)) else old(error)
    {
      var newEndDate := currentEndDate + 7;
      if newEndDate > today {
        newEndDate := today;
      }
      currentEndDate := newEndDate;
      FetchData(newEndDate, result);
      UpdateWeekTitle(newEndDate, today);
    }
  }
}
