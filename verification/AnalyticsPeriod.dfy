/**
 The period an Analytics page counts: a window of days or a range of days, as it
 is written into a link and read back from a request.
 */
module AnalyticsPeriod {
  import opened Bytes
  import opened Decimal
  import opened Calendar

  // The day whose midnight is Go's zero time, which the source takes for "no range".
  const ZERO_DAY := Date(1, 1, 1)

  const OPTIONS: set<int> := {1, 7, 30, 90, 180, 365, 730, 1095}
  const DEFAULT_DAYS := 30
  const LONGEST := 1095

  // An unfiltered span; from and to are the zero day when there is no range.
  datatype Span = Span(days: int, from: Date, to: Date) {
    predicate Ranged() {
      from != ZERO_DAY
    }
  }

  type Query = map<string, string>

  function GetParam(q: Query, name: string): string {
    if name in q then q[name] else ""
  }

  // `set`: the range, or the days when they are not the default.
  function Put(q: Query, p: Span): Query {
    if p.Ranged() then q["from" := Format(p.from)]["to" := Format(p.to)]
    else if p.days != DEFAULT_DAYS then q["days" := Itoa(p.days)]
    else q
  }

  /** The query of a link, filled in place. */
  class Values {
    var params: Query

    constructor ()
      ensures params == map[]
    {
      params := map[];
    }

    /** `set`, writing the period and leaving every other parameter alone. */
    method SetPeriod(p: Span)
      modifies this
      ensures params == Put(old(params), p)
      ensures p.from == Date(1, 1, 1) && p.days == 30 ==> params == old(params)
      ensures forall k :: k !in {"from", "to", "days"} ==> (k in params <==> k in old(params))
      ensures forall k :: k in params && k !in {"from", "to", "days"} ==> params[k] == old(params)[k]
    {
      if p.Ranged() {
        params := params["from" := Format(p.from)];
        params := params["to" := Format(p.to)];
        return;
      }
      if p.days != DEFAULT_DAYS {
        params := params["days" := Itoa(p.days)];
      }
    }
  }

  // `analyticsPeriod`: a whitelisted window, or the default.
  function Window(q: Query): int {
    var want := Atoi(GetParam(q, "days"));
    if want.Some? && want.value in OPTIONS then want.value else DEFAULT_DAYS
  }

  // The range a request asks for, when it is one the page takes.
  function Range(q: Query, today: int): Option<(Date, Date)> {
    var from, to := Parse(GetParam(q, "from")), Parse(GetParam(q, "to"));
    if from.None? || to.None? then None
    else if DayNumber(to.value) < DayNumber(from.value) || DayNumber(to.value) > today
            || DayNumber(to.value) - DayNumber(from.value) >= LONGEST then None
    else Some((from.value, to.value))
  }

  // `analyticsSpanOf`.
  function SpanOf(q: Query, today: int): Span {
    var range := Range(q, today);
    if range.None? then Span(Window(q), ZERO_DAY, ZERO_DAY)
    else Span(DayNumber(range.value.1) - DayNumber(range.value.0) + 1, range.value.0, range.value.1)
  }

  ghost predicate OfferedDays(days: int) {
    days in {1, 7, 30, 90, 180, 365, 730, 1095}
  }

  // A period the page offers.
  ghost predicate Offered(p: Span, today: int) {
    if p.from == Date(1, 1, 1) then p.to == Date(1, 1, 1) && OfferedDays(p.days)
    else
      && p.from.Valid() && p.to.Valid()
      && DayNumber(p.from) <= DayNumber(p.to) <= today && DayNumber(p.to) - DayNumber(p.from) < 1095
      && p.days == DayNumber(p.to) - DayNumber(p.from) + 1
  }

  ghost predicate NoPeriod(q: Query) {
    "from" !in q && "to" !in q && "days" !in q
  }

  /** Reading the link an offered period writes gives back the period, whatever else the link carries. */
  lemma SpanRoundTrip(q: Query, p: Span, today: int)
    requires NoPeriod(q) && Offered(p, today)
    ensures SpanOf(Put(q, p), today) == p
  {
    var link := Put(q, p);
    if p.Ranged() {
      ParseFormat(p.from);
      ParseFormat(p.to);
      assert GetParam(link, "from") == Format(p.from) && GetParam(link, "to") == Format(p.to);
    } else {
      assert GetParam(link, "from") == "";
      assert Range(link, today) == None;
      AtoiItoa(p.days);
    }
  }

  // A taken range that starts on the zero day and goes past it.
  ghost predicate StartsAtZero(q: Query, today: int) {
    var range := Range(q, today);
    range.Some? && range.value.0 == Date(1, 1, 1) && range.value.1 != Date(1, 1, 1)
  }

  /**
   A page's own links keep the period of any request, except one for a range from 1 January of
   year 1, which reads back as a window of days.
   */
  lemma LinksKeepPeriod(q: Query, today: int)
    ensures SpanOf(Put(map[], SpanOf(q, today)), today) == SpanOf(q, today) <==> !StartsAtZero(q, today)
  {
    var p, range := SpanOf(q, today), Range(q, today);
    if StartsAtZero(q, today) {
      var link := Put(map[], p);
      assert GetParam(link, "from") == "";
      assert Range(link, today) == None;
    } else {
      assert Offered(p, today);
      SpanRoundTrip(map[], p, today);
    }
  }

  /** Whatever a request asks for, the page counts a period it offers, but for that family. */
  lemma SpanIsOffered(q: Query, today: int)
    ensures Offered(SpanOf(q, today), today) <==> !StartsAtZero(q, today)
  {
  }

  /** Without a range, the days asked for count if they are offered, and otherwise thirty. */
  lemma DaysAsked(q: Query, today: int)
    requires "from" !in q
    ensures var want := Atoi(if "days" in q then q["days"] else "");
      SpanOf(q, today) ==
        Span(if want.Some? && OfferedDays(want.value) then want.value else 30, Date(1, 1, 1), Date(1, 1, 1))
  {
    assert GetParam(q, "from") == "";
    assert Range(q, today) == None;
  }

  /** Such a request exists: the first two days of year 1. */
  lemma ZeroDayExample(today: int)
    requires today >= DayNumber(Date(1, 1, 2))
    ensures StartsAtZero(map["from" := Format(ZERO_DAY), "to" := Format(Date(1, 1, 2))], today)
  {
    var q := map["from" := Format(ZERO_DAY), "to" := Format(Date(1, 1, 2))];
    ParseFormat(ZERO_DAY);
    ParseFormat(Date(1, 1, 2));
    NextDayNumber(ZERO_DAY);
    assert GetParam(q, "from") == Format(ZERO_DAY) && GetParam(q, "to") == Format(Date(1, 1, 2));
  }
}
