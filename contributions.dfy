/**
 * The contribution check: did the tracked account contribute on "today"?
 * The HTTP request and JSON decoding are outside the model; their outcome
 * arrives as a `Response`, the status code and the decoded calendar.
 */
module Contributions {
  import opened Dates

  /** One entry of `contributionDays`: an ISO date string and a count. */
  datatype ContributionDay = ContributionDay(date: string, contributionCount: int)

  /** One entry of the calendar's `weeks`. */
  datatype Week = Week(contributionDays: seq<ContributionDay>)

  /** What the GraphQL endpoint answered. */
  datatype Response = Response(statusCode: int, weeks: seq<Week>)

  const StatusOk := 200

  /** The day is `date` and something was contributed on it. */
  predicate CountsOn(day: ContributionDay, date: string)
  {
    day.date == date && day.contributionCount > 0
  }

  /** Some day of some week of the calendar counts on `date`. */
  predicate ContributedOn(weeks: seq<Week>, date: string)
  {
    exists w, k :: 0 <= w < |weeks| && 0 <= k < |weeks[w].contributionDays|
                && CountsOn(weeks[w].contributionDays[k], date)
  }

  /** The answer the check must give: a good status, and a contribution on today's date. */
  predicate ContributedToday(response: Response, today: Date)
    requires ValidDate(today)
  {
    response.statusCode == StatusOk && ContributedOn(response.weeks, IsoFormat(today))
  }

  /**
   * `has_contributed_today`: any status but 200 answers false without
   * looking at the calendar; otherwise the weeks and their days are
   * scanned in order and the first day of today with a positive count
   * answers true.
   */
  method HasContributedToday(response: Response, today: Date) returns (found: bool)
    requires ValidDate(today)
    ensures response.statusCode != StatusOk ==> !found
    ensures found <==> ContributedToday(response, today)
  {
    var todayIso := IsoFormat(today);
    if response.statusCode != StatusOk {
      return false;
    }
    var weeks := response.weeks;
    for w := 0 to |weeks|
      invariant forall i, k :: 0 <= i < w && 0 <= k < |weeks[i].contributionDays|
                  ==> !CountsOn(weeks[i].contributionDays[k], todayIso)
    {
      var days := weeks[w].contributionDays;
      for k := 0 to |days|
        invariant forall j :: 0 <= j < k ==> !CountsOn(days[j], todayIso)
      {
        if days[k].date == todayIso && days[k].contributionCount > 0 {
          return true;
        }
      }
    }
    return false;
  }
}
