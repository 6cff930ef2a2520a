/** The usage meter: running daily and monthly totals as an index over the list of usage records. */
module UsageMeter {
  import opened Canonical

  /** One usage record with the ISO date it was recorded on. */
  datatype UsageRecord = UsageRecord(org: string, project: string, metric: string, count: int, day: string)

  /** Totals by "org:date" or "org:month", then by metric. */
  type Totals = map<string, map<string, int>>

  /** `YYYY-MM-DD` */
  predicate IsDay(day: string) {
    |day| == 10
  }

  function Month(day: string): string
    requires IsDay(day)
  {
    day[..7]
  }

  function KeyOf(org: string, period: string): string {
    org + ":" + period
  }

  function Lookup(totals: Totals, key: string, metric: string): int {
    if key in totals && metric in totals[key] then totals[key][metric] else 0
  }

  function Bump(totals: Totals, key: string, metric: string, count: int): Totals {
    var inner := if key in totals then totals[key] else map[];
    totals[key := inner[metric := Lookup(totals, key, metric) + count]]
  }

  predicate EndsWith(s: string, suffix: string) {
    |suffix| <= |s| && s[|s| - |suffix|..] == suffix
  }

  // ---- the records are the truth ----

  function DayTotal(rs: seq<UsageRecord>, org: string, metric: string, day: string): int {
    if rs == [] then 0
    else
      var r := rs[|rs| - 1];
      DayTotal(rs[..|rs| - 1], org, metric, day)
      + (if r.org == org && r.metric == metric && r.day == day then r.count else 0)
  }

  function MonthTotal(rs: seq<UsageRecord>, org: string, metric: string, month: string): int
    requires forall r :: r in rs ==> IsDay(r.day)
  {
    if rs == [] then 0
    else
      var r := rs[|rs| - 1];
      MonthTotal(rs[..|rs| - 1], org, metric, month)
      + (if r.org == org && r.metric == metric && Month(r.day) == month then r.count else 0)
  }

  /** Each record counts once, for its organisation and metric, on its day and in the month its date begins with. */
  lemma EachRecordCounts(rs: seq<UsageRecord>, r: UsageRecord, org: string, metric: string, period: string)
    requires (forall x :: x in rs ==> IsDay(x.day)) && IsDay(r.day)
    ensures DayTotal([], org, metric, period) == 0 && MonthTotal([], org, metric, period) == 0
    ensures DayTotal(rs + [r], org, metric, period)
         == DayTotal(rs, org, metric, period)
          + if (r.org, r.metric, r.day) == (org, metric, period) then r.count else 0
    ensures MonthTotal(rs + [r], org, metric, period)
         == MonthTotal(rs, org, metric, period)
          + if (r.org, r.metric, r.day[..7]) == (org, metric, period) then r.count else 0
  {
    assert (rs + [r])[..|rs|] == rs;
  }

  /** No record is dated after the clock. */
  ghost predicate RecordedUpTo(rs: seq<UsageRecord>, clock: string) {
    forall r :: r in rs ==> IsDay(r.day) && !TextBefore(clock, r.day)
  }

  lemma {:induction false} NothingOnLaterDays(rs: seq<UsageRecord>, clock: string, org: string, metric: string,
                                            day: string)
    requires RecordedUpTo(rs, clock) && TextBefore(clock, day)
    ensures DayTotal(rs, org, metric, day) == 0
  {
    if rs != [] {
      assert rs[|rs| - 1] in rs;
      NothingOnLaterDays(rs[..|rs| - 1], clock, org, metric, day);
    }
  }

  /** Daily totals are exact from the last reset day on. */
  ghost predicate DailyExact(daily: Totals, rs: seq<UsageRecord>, since: string) {
    forall org, metric, day {:trigger DayTotal(rs, org, metric, day)} :: IsDay(day) && !TextBefore(day, since) ==>
      Lookup(daily, KeyOf(org, day), metric) == DayTotal(rs, org, metric, day)
  }

  ghost predicate MonthlyExact(monthly: Totals, rs: seq<UsageRecord>)
    requires forall r :: r in rs ==> IsDay(r.day)
  {
    forall org, metric, month {:trigger MonthTotal(rs, org, metric, month)} :: |month| == 7 ==>
      Lookup(monthly, KeyOf(org, month), metric) == MonthTotal(rs, org, metric, month)
  }

  /** Dates of one length make keys unambiguous, whatever the organisation's text. */
  lemma KeysDiffer(org: string, period: string, org': string, period': string)
    requires |period| == |period'| && KeyOf(org, period) == KeyOf(org', period')
    ensures org == org' && period == period'
  {
    var k, k' := KeyOf(org, period), KeyOf(org', period');
    assert k[|k| - |period|..] == period && k'[|k'| - |period'|..] == period';
    assert k[..|k| - |period| - 1] == org && k'[..|k'| - |period'| - 1] == org';
  }

  lemma BumpAt(totals: Totals, key: string, metric: string, count: int, key': string, metric': string)
    ensures Lookup(Bump(totals, key, metric, count), key', metric')
         == Lookup(totals, key', metric') + if key == key' && metric == metric' then count else 0
  {
  }

  lemma DailyStaysExact(daily: Totals, rs: seq<UsageRecord>, since: string, r: UsageRecord)
    requires DailyExact(daily, rs, since) && IsDay(r.day)
    ensures DailyExact(Bump(daily, KeyOf(r.org, r.day), r.metric, r.count), rs + [r], since)
  {
    forall org, metric, day | IsDay(day) && !TextBefore(day, since)
      ensures Lookup(Bump(daily, KeyOf(r.org, r.day), r.metric, r.count), KeyOf(org, day), metric)
           == DayTotal(rs + [r], org, metric, day)
    {
      assert (rs + [r])[..|rs|] == rs;
      BumpAt(daily, KeyOf(r.org, r.day), r.metric, r.count, KeyOf(org, day), metric);
      if KeyOf(r.org, r.day) == KeyOf(org, day) {
        KeysDiffer(r.org, r.day, org, day);
      }
      assert Lookup(daily, KeyOf(org, day), metric) == DayTotal(rs, org, metric, day);
    }
  }

  lemma MonthlyStaysExact(monthly: Totals, rs: seq<UsageRecord>, r: UsageRecord)
    requires (forall x :: x in rs ==> IsDay(x.day)) && IsDay(r.day) && MonthlyExact(monthly, rs)
    ensures MonthlyExact(Bump(monthly, KeyOf(r.org, Month(r.day)), r.metric, r.count), rs + [r])
  {
    forall org, metric, month | |month| == 7
      ensures Lookup(Bump(monthly, KeyOf(r.org, Month(r.day)), r.metric, r.count), KeyOf(org, month), metric)
           == MonthTotal(rs + [r], org, metric, month)
    {
      assert (rs + [r])[..|rs|] == rs;
      BumpAt(monthly, KeyOf(r.org, Month(r.day)), r.metric, r.count, KeyOf(org, month), metric);
      if KeyOf(r.org, Month(r.day)) == KeyOf(org, month) {
        KeysDiffer(r.org, Month(r.day), org, month);
      }
      assert Lookup(monthly, KeyOf(org, month), metric) == MonthTotal(rs, org, metric, month);
    }
  }

  function Purge(daily: Totals, today: string): Totals {
    map k | k in daily && EndsWith(k, today) :: daily[k]
  }

  lemma KeyEndsWithDay(org: string, day: string, today: string)
    requires IsDay(day) && IsDay(today)
    ensures EndsWith(KeyOf(org, day), today) <==> day == today
  {
    var k := KeyOf(org, day);
    assert k[|k| - 10..] == day;
  }

  /** Purging other days keeps today's totals and makes the daily index exact from today on. */
  lemma PurgeStaysExact(daily: Totals, rs: seq<UsageRecord>, since: string, today: string)
    requires IsDay(today) && DailyExact(daily, rs, since) && RecordedUpTo(rs, today) && !TextBefore(today, since)
    ensures DailyExact(Purge(daily, today), rs, today)
  {
    forall org, metric, day | IsDay(day) && !TextBefore(day, today)
      ensures Lookup(Purge(daily, today), KeyOf(org, day), metric) == DayTotal(rs, org, metric, day)
    {
      KeyEndsWithDay(org, day, today);
      if day == today {
        assert Lookup(daily, KeyOf(org, day), metric) == DayTotal(rs, org, metric, day);
      } else {
        if !TextBefore(today, day) {
          TextBeforeTotal(today, day);
        }
        NothingOnLaterDays(rs, today, org, metric, day);
      }
    }
  }

  class Meter {
    var records: seq<UsageRecord>
    var daily: Totals
    var monthly: Totals
    ghost var clock: string
    ghost var since: string

    constructor (today: string)
      requires IsDay(today)
      ensures Valid() && records == [] && clock == today
    {
      records, daily, monthly := [], map[], map[];
      clock, since := today, today;
      new;
      TextBeforeTransitive(today, today, today);
    }

    ghost predicate Valid()
      reads this
    {
      && RecordedUpTo(records, clock)
      && !TextBefore(clock, since)
      && DailyExact(daily, records, since)
      && MonthlyExact(monthly, records)
    }

    method Record(org: string, project: string, metric: string, count: int, today: string)
      requires Valid() && IsDay(today) && !TextBefore(today, clock)
      modifies this
      ensures Valid() && clock == today
      ensures records == old(records) + [UsageRecord(org, project, metric, count, today)]
      ensures daily == Bump(old(daily), org + ":" + today, metric, count)
      ensures monthly == Bump(old(monthly), org + ":" + today[..7], metric, count)
    {
      var r := UsageRecord(org, project, metric, count, today);
      DailyStaysExact(daily, records, since, r);
      MonthlyStaysExact(monthly, records, r);
      ClockAdvances(records, clock, since, today, r);
      records := records + [r];
      daily := Bump(daily, KeyOf(org, today), metric, count);
      monthly := Bump(monthly, KeyOf(org, Month(today)), metric, count);
      clock := today;
    }

    /** The running total of the day is the sum of the day's records. */
    method GetDailyUsage(org: string, metric: string, today: string) returns (n: int)
      requires Valid() && IsDay(today) && !TextBefore(today, clock)
      ensures n == DayTotal(records, org, metric, today)
    {
      TextBeforeTransitive(today, clock, since);
      n := Lookup(daily, KeyOf(org, today), metric);
    }

    method GetMonthlyUsage(org: string, metric: string, today: string) returns (n: int)
      requires Valid() && IsDay(today)
      ensures n == MonthTotal(records, org, metric, today[..7])
    {
      n := Lookup(monthly, KeyOf(org, Month(today)), metric);
    }

    /** Drops the totals of other days; every later answer is still the sum of the records. */
    method ResetDaily(today: string)
      requires Valid() && IsDay(today) && !TextBefore(today, clock)
      modifies this
      ensures Valid() && clock == today && records == old(records) && monthly == old(monthly)
      ensures daily == Purge(old(daily), today)
      ensures forall k :: k in daily <==> k in old(daily) && |k| >= 10 && k[|k| - 10..] == today
      ensures forall k :: k in daily ==> daily[k] == old(daily)[k]
    {
      ClockOnlyAdvances(records, clock, since, today);
      PurgeStaysExact(daily, records, since, today);
      var stale := set k | k in daily && !EndsWith(k, today);
      while stale != {}
        invariant stale <= daily.Keys && daily - stale == Purge(old(daily), today)
        invariant records == old(records) && monthly == old(monthly)
        decreases |stale|
      {
        var key :| key in stale;
        daily := daily - {key};
        stale := stale - {key};
      }
      clock, since := today, today;
      TextBeforeTransitive(today, today, today);
    }
  }

  lemma ClockOnlyAdvances(rs: seq<UsageRecord>, clock: string, since: string, today: string)
    requires RecordedUpTo(rs, clock) && !TextBefore(clock, since) && !TextBefore(today, clock)
    ensures RecordedUpTo(rs, today) && !TextBefore(today, since)
  {
    TextBeforeTransitive(today, clock, since);
    forall r | r in rs ensures !TextBefore(today, r.day) {
      TextBeforeTransitive(today, clock, r.day);
    }
  }

  lemma ClockAdvances(rs: seq<UsageRecord>, clock: string, since: string, today: string, r: UsageRecord)
    requires RecordedUpTo(rs, clock) && !TextBefore(clock, since) && !TextBefore(today, clock)
    requires IsDay(today) && r.day == today
    ensures RecordedUpTo(rs + [r], today) && !TextBefore(today, since)
  {
    ClockOnlyAdvances(rs, clock, since, today);
    TextBeforeTransitive(today, today, today);
  }
}
