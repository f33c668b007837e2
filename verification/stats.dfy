/**
 * The site-wide visit counter: a total and a per-day count that resets
 * whenever a visit arrives with a date other than the stored one. The stats
 * file is an optional record (absent when missing or unreadable); the date
 * is supplied by the caller.
 */
module Stats {
  import opened Wrappers

  datatype VisitStats = VisitStats(totalVisits: int, todayVisits: int, lastDate: string)

  /** `ensureStatsFile`: the stored record, or all-zero counters and an empty
      date when there is none. */
  function EnsureStats(stored: Option<VisitStats>): (s: VisitStats)
    ensures stored.Some? ==> s == stored.value
    ensures stored.None? ==> s.totalVisits == 0 && s.todayVisits == 0 && s.lastDate == ""
  {
    stored.GetOr(VisitStats(0, 0, ""))
  }

  /** One visit on date `today`, applied to a record. */
  function Visit(stats: VisitStats, today: string): (s: VisitStats)
    ensures s.totalVisits == stats.totalVisits + 1
    ensures s.lastDate == today
    ensures stats.lastDate != today ==> s.todayVisits == 1
    ensures stats.lastDate == today ==> s.todayVisits == stats.todayVisits + 1
  {
    var s := if stats.lastDate != today then stats.(todayVisits := 1, lastDate := today)
             else stats.(todayVisits := stats.todayVisits + 1);
    s.(totalVisits := s.totalVisits + 1)
  }

  /** `updateStats(today)`: one visit applied to the stored (or default)
      record; the result is both written back and returned. */
  function UpdateStats(stored: Option<VisitStats>, today: string): (s: VisitStats)
    ensures s.totalVisits == EnsureStats(stored).totalVisits + 1
    ensures s.lastDate == today
    ensures s.todayVisits == if EnsureStats(stored).lastDate == today then EnsureStats(stored).todayVisits + 1 else 1
  {
    Visit(EnsureStats(stored), today)
  }

  /** Two visits on the same date add two to the total; the day count ends
      at two more than before when the date was already current, else at 2. */
  lemma TwoVisitsSameDay(stats: VisitStats, today: string)
    ensures var s := Visit(Visit(stats, today), today);
            && s.totalVisits == stats.totalVisits + 2
            && s.lastDate == today
            && s.todayVisits == (if stats.lastDate == today then stats.todayVisits + 2 else 2)
  {}

  /** The record after a sequence of visits, in order. */
  function Replay(stats: VisitStats, days: seq<string>): VisitStats {
    if |days| == 0 then stats else Visit(Replay(stats, days[..|days| - 1]), days[|days| - 1])
  }

  /** How many of the last visits share the date of the very last one. */
  function TrailingRun(days: seq<string>): (n: nat)
    requires |days| > 0
    ensures 1 <= n <= |days|
  {
    if |days| == 1 || days[|days| - 2] != days[|days| - 1] then 1
    else 1 + TrailingRun(days[..|days| - 1])
  }

  /** After any non-empty sequence of visits the total has grown by their
      number, the date is the last visit's, and the day count is the number
      of trailing visits on that date (plus the old count when every visit
      fell on the already current date). */
  lemma {:induction false} ReplayCounts(stats: VisitStats, days: seq<string>)
    requires |days| > 0
    ensures var s := Replay(stats, days);
            && s.totalVisits == stats.totalVisits + |days|
            && s.lastDate == days[|days| - 1]
            && s.todayVisits == (if TrailingRun(days) == |days| && stats.lastDate == days[|days| - 1]
                                 then stats.todayVisits + |days| else TrailingRun(days))
  {
    var init := days[..|days| - 1];
    if |init| > 0 {
      ReplayCounts(stats, init);
      assert init[..|init| - 1] == days[..|days| - 2];
      if days[|days| - 2] == days[|days| - 1] {
        assert TrailingRun(days) == 1 + TrailingRun(init);
      }
    }
  }
}
