/** The address book: records stored under their names, in the order a
    Python dict keeps its keys, and the upcoming-birthdays query. */
module AddressBooks {
  import opened Base
  import opened Calendar
  import opened Fields
  import opened Records
  import opened Sequences

  /** One entry of the query's answer: `{"name": ..., "birthday": "DD.MM.YYYY"}`. */
  datatype Greeting = Greeting(name: string, birthday: string)

  /** What the query reads of one stored record. */
  datatype Entry = Entry(name: string, birthday: Option<CalendarDate>)

  // ---------------------------------------------------------------------
  // Weekend adjustment

  /** The day with ordinal `n` is a Saturday or a Sunday. */
  predicate IsWeekendOrdinal(n: int) {
    (n + 6) % 7 >= 5
  }

  /** A Sunday is not the last day of the calendar; it is a weekend day,
      and the next day is a Monday. */
  lemma SundayShift(d: CalendarDate)
    requires Weekday(d) == 6
    ensures d != MaxDate
    ensures Weekday(NextDay(d)) == 0 && ToOrdinal(NextDay(d)) == ToOrdinal(d) + 1
    ensures forall n :: ToOrdinal(d) <= n < ToOrdinal(d) + 1 ==> IsWeekendOrdinal(n)
  {
    MaxDateIsFriday();
    assert d != MaxDate;
    assert Weekday(NextDay(d)) == 0;
  }

  /** A Saturday is neither of the last two days of the calendar; it and
      the Sunday after it are weekend days, and two days on is a Monday. */
  lemma SaturdayShift(d: CalendarDate)
    requires Weekday(d) == 5
    ensures d != MaxDate && NextDay(d) != MaxDate
    ensures Weekday(NextDay(NextDay(d))) == 0 && ToOrdinal(NextDay(NextDay(d))) == ToOrdinal(d) + 2
    ensures forall n :: ToOrdinal(d) <= n < ToOrdinal(d) + 2 ==> IsWeekendOrdinal(n)
  {
    MaxDateIsFriday();
    assert d != MaxDate;
    var sunday := NextDay(d);
    assert Weekday(sunday) == 6;
    SundayShift(sunday);
    forall n | ToOrdinal(d) <= n < ToOrdinal(d) + 2
      ensures IsWeekendOrdinal(n)
    {
      if n != ToOrdinal(d) {
        assert ToOrdinal(sunday) <= n < ToOrdinal(sunday) + 1;
      }
    }
  }

  /** `adjust_for_weekend`: a Saturday moves on two days and a Sunday one
      day; the result is the first weekday on or after `d`. It never leaves
      the representable range, because 9999-12-31 is a Friday. */
  function AdjustForWeekend(d: CalendarDate): (r: CalendarDate)
    ensures Weekday(r) < 5
    ensures ToOrdinal(d) <= ToOrdinal(r) <= ToOrdinal(d) + 2
    ensures forall n :: ToOrdinal(d) <= n < ToOrdinal(r) ==> IsWeekendOrdinal(n)
  {
    if Weekday(d) == 5 then
      SaturdayShift(d);
      NextDay(NextDay(d))
    else if Weekday(d) == 6 then
      SundayShift(d);
      NextDay(d)
    else d
  }

  // ---------------------------------------------------------------------
  // Next occurrence of a birthday

  /** `d.replace(year=year)`: ValueError when the day does not exist in
      that year (29 February) or the year is out of range. */
  function ReplaceYear(d: Date, year: int): (r: Result<Date>)
    ensures r.Success? ==> r.value == d.(year := year) && ValidDate(r.value)
    ensures r.Failure? ==> r.error == ReplaceFailed
    ensures ValidDate(d) && MinYear <= year <= MaxYear ==>
      (r.Success? <==> !(d.month == 2 && d.day == 29) || IsLeapYear(year))
  {
    var r := Date(year, d.month, d.day);
    if ValidDate(r) then Success(r) else Failure(ReplaceFailed)
  }

  /** This year's occurrence of the birthday, or next year's when this
      year's is already past: the first occurrence on or after today. Fails
      when a year substitution yields no date. */
  function NextOccurrence(b: CalendarDate, today: CalendarDate): (r: Result<CalendarDate>)
    ensures r.Success? <==>
      ValidDate(Date(today.year, b.month, b.day)) &&
      (NotAfter(today, Date(today.year, b.month, b.day)) || ValidDate(Date(today.year + 1, b.month, b.day)))
    ensures r.Success? ==>
      r.value.month == b.month && r.value.day == b.day && NotAfter(today, r.value) &&
      (r.value.year == today.year <==> NotAfter(today, Date(today.year, b.month, b.day))) &&
      (r.value.year == today.year || r.value.year == today.year + 1)
    ensures r.Failure? ==> r.error == ReplaceFailed
  {
    match ReplaceYear(b, today.year)
    case Failure(e) => Failure(e)
    case Success(thisYear) =>
      if Before(thisYear, today) then
        match ReplaceYear(thisYear, today.year + 1)
        case Failure(e) => Failure(e)
        case Success(nextYear) => Success(nextYear)
      else Success(thisYear)
  }

  /** A 29 February birthday has an occurrence only in a leap year, up to
      that day: from March on, and in every other year, the query fails. */
  lemma LeapDayOccurrence(b: CalendarDate, today: CalendarDate)
    requires b.month == 2 && b.day == 29
    ensures NextOccurrence(b, today).Success? <==> IsLeapYear(today.year) && today.month <= 2
  {
    if IsLeapYear(today.year) {
      assert !IsLeapYear(today.year + 1);
    }
  }

  /** The date a birthday is celebrated on: its next occurrence, moved off
      the weekend. */
  function CongratulationDate(b: CalendarDate, today: CalendarDate): Result<CalendarDate> {
    match NextOccurrence(b, today)
    case Failure(e) => Failure(e)
    case Success(occurrence) => Success(AdjustForWeekend(occurrence))
  }

  /** A birthday is always celebrated on a weekday. */
  lemma CongratulationOnWeekday(b: CalendarDate, today: CalendarDate)
    requires CongratulationDate(b, today).Success?
    ensures Weekday(CongratulationDate(b, today).value) < 5
  {
  }

  // ---------------------------------------------------------------------
  // The query, stated on the entries in iteration order

  /** `today + timedelta(days=days)` exists. */
  predicate WindowEndExists(today: CalendarDate, days: int) {
    0 < ToOrdinal(today) + days <= MaxOrdinal
  }

  /** The entry's congratulation date exists and lies in `[today, today + days]`. */
  predicate Qualifies(e: Entry, today: CalendarDate, days: int) {
    e.birthday.Some? && CongratulationDate(e.birthday.value, today).Success? &&
    var d := CongratulationDate(e.birthday.value, today).value;
    ToOrdinal(today) <= ToOrdinal(d) <= ToOrdinal(today) + days
  }

  /** Looking at the entry raises: a year substitution fails, or the window's
      end is not a date. */
  predicate EntryFails(e: Entry, today: CalendarDate, days: int) {
    e.birthday.Some? &&
    (CongratulationDate(e.birthday.value, today).Failure? || !WindowEndExists(today, days))
  }

  function GreetingFor(e: Entry, today: CalendarDate): Greeting
    requires e.birthday.Some? && CongratulationDate(e.birthday.value, today).Success?
  {
    Greeting(e.name, FormatDate(CongratulationDate(e.birthday.value, today).value))
  }

  /** One pass of the loop body of `get_upcoming_birthdays`: entries without
      a birthday are skipped; `today <= d <= today + timedelta(days=days)` is
      a chained comparison, so the window's end is only computed (and can
      only overflow) once `d` is known not to be before today. */
  function Visit(e: Entry, today: CalendarDate, days: int): (r: Result<Option<Greeting>>)
    ensures r.Failure? <==> EntryFails(e, today, days)
    ensures r.Failure? ==> r.error == if CongratulationDate(e.birthday.value, today).Failure? then ReplaceFailed else DateOverflow
    ensures r.Success? ==> (r.value.Some? <==> Qualifies(e, today, days))
    ensures r.Success? && r.value.Some? ==> r.value.value == GreetingFor(e, today)
  {
    match e.birthday
    case None => Success(None)
    case Some(b) =>
      match NextOccurrence(b, today)
      case Failure(err) => Failure(err)
      case Success(occurrence) =>
        var d := AdjustForWeekend(occurrence);
        OrdinalOrder(d, today);
        OrdinalOrder(today, occurrence);
        if Before(d, today) then Success(None)
        else if !WindowEndExists(today, days) then Failure(DateOverflow)
        else if ToOrdinal(d) <= ToOrdinal(today) + days then Success(Some(Greeting(e.name, FormatDate(d))))
        else Success(None)
  }

  /** One pass of the loop: an error raised earlier stands, an error raised
      now ends the query, a greeting is appended. */
  function Extend(acc: Result<seq<Greeting>>, step: Result<Option<Greeting>>): Result<seq<Greeting>> {
    match acc
    case Failure(err) => Failure(err)
    case Success(gs) =>
      match step
      case Failure(err) => Failure(err)
      case Success(None) => Success(gs)
      case Success(Some(g)) => Success(gs + [g])
  }

  /** A successful pass comes from a successful query so far and a
      successful step, and appends what the step yields. */
  lemma ExtendSuccess(acc: Result<seq<Greeting>>, step: Result<Option<Greeting>>)
    requires Extend(acc, step).Success?
    ensures acc.Success? && step.Success?
    ensures Extend(acc, step).value == acc.value + if step.value.Some? then [step.value.value] else []
  {
    if step.value.None? {
      assert acc.value + [] == acc.value;
    }
  }

  /** The loop of `get_upcoming_birthdays` over the entries in order, for
      any step taken per entry: the greetings collected, or the first error
      raised. */
  function Run(es: seq<Entry>, visit: Entry -> Result<Option<Greeting>>): (r: Result<seq<Greeting>>)
    ensures r.Success? ==> |r.value| <= |es|
  {
    if es == [] then Success([])
    else Extend(Run(es[..|es| - 1], visit), visit(es[|es| - 1]))
  }

  /** The loop succeeds exactly when every step succeeds. */
  lemma {:induction false} RunSucceeds(es: seq<Entry>, visit: Entry -> Result<Option<Greeting>>)
    ensures Run(es, visit).Success? <==> forall i :: 0 <= i < |es| ==> visit(es[i]).Success?
  {
    if es != [] {
      var init := es[..|es| - 1];
      RunSucceeds(init, visit);
      assert forall i :: 0 <= i < |init| ==> init[i] == es[i];
    }
  }

  lemma RunStep(es: seq<Entry>, i: nat, visit: Entry -> Result<Option<Greeting>>)
    requires i < |es|
    ensures Run(es[..i + 1], visit) == Extend(Run(es[..i], visit), visit(es[i]))
  {
    assert es[..i + 1][..i] == es[..i];
  }

  /** A successful loop collects what each step yields. */
  lemma {:induction false} RunCollects(es: seq<Entry>, visit: Entry -> Result<Option<Greeting>>, pick: Entry -> Option<Greeting>)
    requires Run(es, visit).Success?
    requires forall e :: visit(e).Success? ==> visit(e).value == pick(e)
    ensures Run(es, visit).value == Collect(es, pick)
  {
    if es != [] {
      var init, last := es[..|es| - 1], es[|es| - 1];
      ExtendSuccess(Run(init, visit), visit(last));
      RunCollects(init, visit, pick);
      CollectAppend(init, last, pick);
      assert init + [last] == es;
    }
  }

  lemma {:induction false} RunFailureSticks(es: seq<Entry>, n: nat, visit: Entry -> Result<Option<Greeting>>)
    requires n <= |es| && Run(es[..n], visit).Failure?
    ensures Run(es, visit) == Run(es[..n], visit)
    decreases |es|
  {
    if n < |es| {
      var init := es[..|es| - 1];
      assert init[..n] == es[..n];
      RunFailureSticks(init, n, visit);
    } else {
      assert es[..n] == es;
    }
  }

  /** A failed loop reports the error of its first failing step. */
  lemma {:induction false} RunFirstFailure(es: seq<Entry>, visit: Entry -> Result<Option<Greeting>>)
    requires Run(es, visit).Failure?
    ensures exists i :: (0 <= i < |es| && visit(es[i]).Failure? && visit(es[i]).error == Run(es, visit).error &&
      forall j :: 0 <= j < i ==> visit(es[j]).Success?)
  {
    var init := es[..|es| - 1];
    assert forall j :: 0 <= j < |init| ==> es[j] == init[j];
    if Run(init, visit).Failure? {
      RunFirstFailure(init, visit);
      var i :| 0 <= i < |init| && visit(init[i]).Failure? && visit(init[i]).error == Run(init, visit).error &&
        forall j :: 0 <= j < i ==> visit(init[j]).Success?;
      assert es[i] == init[i];
    } else {
      RunSucceeds(init, visit);
      var i := |es| - 1;
      assert visit(es[i]).Failure? && visit(es[i]).error == Run(es, visit).error;
    }
  }

  /** The step of the query for one entry. */
  function VisitStep(today: CalendarDate, days: int): Entry -> Result<Option<Greeting>> {
    e => Visit(e, today, days)
  }

  /** `get_upcoming_birthdays(days)` over the records' entries in iteration
      order, with "now" given as `today`. */
  function Upcoming(es: seq<Entry>, today: CalendarDate, days: int): (r: Result<seq<Greeting>>)
    ensures r.Success? ==> |r.value| <= |es|
  {
    Run(es, VisitStep(today, days))
  }

  /** The query fails exactly when some entry fails. */
  lemma UpcomingSucceeds(es: seq<Entry>, today: CalendarDate, days: int)
    ensures Upcoming(es, today, days).Success? <==> forall i :: 0 <= i < |es| ==> !EntryFails(es[i], today, days)
  {
    RunSucceeds(es, VisitStep(today, days));
  }

  /** One more entry: the query over a longer prefix of the entries, in
      terms of the shorter prefix and the step for the new entry. */
  lemma UpcomingStep(es: seq<Entry>, i: nat, today: CalendarDate, days: int)
    requires i < |es|
    ensures Upcoming(es[..i + 1], today, days) == Extend(Upcoming(es[..i], today, days), Visit(es[i], today, days))
  {
    RunStep(es, i, VisitStep(today, days));
  }

  /** The loop of `get_upcoming_birthdays` after `i` entries, one pass on:
      a failing entry ends the whole query with its error, otherwise its
      greeting, if any, is appended. */
  lemma UpcomingNext(es: seq<Entry>, i: nat, today: CalendarDate, days: int,
                     upcoming: seq<Greeting>, visited: Result<Option<Greeting>>)
    requires i < |es| && Upcoming(es[..i], today, days) == Success(upcoming)
    requires visited == Visit(es[i], today, days)
    ensures visited.Failure? ==> Upcoming(es, today, days) == Failure(visited.error)
    ensures visited == Success(None) ==> Upcoming(es[..i + 1], today, days) == Success(upcoming)
    ensures visited.Success? && visited.value.Some? ==>
      Upcoming(es[..i + 1], today, days) == Success(upcoming + [visited.value.value])
  {
    UpcomingStep(es, i, today, days);
    if visited.Failure? {
      FailureSticks(es, i + 1, today, days);
    }
  }

  /** The greetings `pick` yields for the entries, in order. */
  function Collect(es: seq<Entry>, pick: Entry -> Option<Greeting>): seq<Greeting> {
    if es == [] then []
    else (if pick(es[0]).Some? then [pick(es[0]).value] else []) + Collect(es[1..], pick)
  }

  lemma {:induction false} CollectAppend(es: seq<Entry>, e: Entry, pick: Entry -> Option<Greeting>)
    ensures Collect(es + [e], pick) == Collect(es, pick) + if pick(e).Some? then [pick(e).value] else []
  {
    if es != [] {
      assert (es + [e])[1..] == es[1..] + [e];
      CollectAppend(es[1..], e, pick);
    } else {
      assert [e][1..] == [];
    }
  }

  lemma {:induction false} CollectMembers(es: seq<Entry>, pick: Entry -> Option<Greeting>, g: Greeting)
    ensures g in Collect(es, pick) <==> exists i :: 0 <= i < |es| && pick(es[i]) == Some(g)
  {
    if es != [] {
      CollectMembers(es[1..], pick, g);
      if g in Collect(es[1..], pick) {
        var i :| 0 <= i < |es[1..]| && pick(es[1..][i]) == Some(g);
        assert es[i + 1] == es[1..][i];
      }
      if exists i :: 0 <= i < |es| && pick(es[i]) == Some(g) {
        var i :| 0 <= i < |es| && pick(es[i]) == Some(g);
        if i > 0 {
          assert es[1..][i - 1] == es[i];
        }
      }
    }
  }

  /** The greeting an entry deserves: one exactly when it qualifies. */
  function Wanted(today: CalendarDate, days: int): Entry -> Option<Greeting> {
    e => if Qualifies(e, today, days) then Some(GreetingFor(e, today)) else None
  }

  /** Reference definition of the answer: the greetings of the qualifying
      entries, in order. */
  function Reported(es: seq<Entry>, today: CalendarDate, days: int): seq<Greeting> {
    Collect(es, Wanted(today, days))
  }

  /** When the query succeeds, its answer is exactly the greetings of the
      qualifying entries, in iteration order. */
  lemma UpcomingIsReported(es: seq<Entry>, today: CalendarDate, days: int)
    requires Upcoming(es, today, days).Success?
    ensures Upcoming(es, today, days).value == Reported(es, today, days)
  {
    RunCollects(es, VisitStep(today, days), Wanted(today, days));
  }

  /** A greeting is reported for exactly the qualifying entries. */
  lemma ReportedMembers(es: seq<Entry>, today: CalendarDate, days: int, g: Greeting)
    ensures g in Reported(es, today, days) <==>
      exists i :: 0 <= i < |es| && Qualifies(es[i], today, days) && g == GreetingFor(es[i], today)
  {
    CollectMembers(es, Wanted(today, days), g);
  }

  /** The entry an answered greeting comes from. */
  lemma ReportedEntry(es: seq<Entry>, today: CalendarDate, days: int, g: Greeting) returns (i: int)
    requires Upcoming(es, today, days).Success? && g in Upcoming(es, today, days).value
    ensures 0 <= i < |es| && Qualifies(es[i], today, days) && g == GreetingFor(es[i], today)
  {
    UpcomingIsReported(es, today, days);
    ReportedMembers(es, today, days, g);
    i :| 0 <= i < |es| && Qualifies(es[i], today, days) && g == GreetingFor(es[i], today);
  }

  /** The celebration date behind the greeting of a qualifying entry. */
  lemma QualifyingGreeting(e: Entry, today: CalendarDate, days: int) returns (d: CalendarDate)
    requires Qualifies(e, today, days)
    ensures e.birthday.Some? && CongratulationDate(e.birthday.value, today) == Success(d)
    ensures GreetingFor(e, today) == Greeting(e.name, FormatDate(d)) && Weekday(d) < 5
    ensures ToOrdinal(today) <= ToOrdinal(d) <= ToOrdinal(today) + days
  {
    d := CongratulationDate(e.birthday.value, today).value;
    CongratulationOnWeekday(e.birthday.value, today);
  }

  /** Every reported greeting belongs to an entry with a birthday whose
      celebration falls on a weekday inside `[today, today + days]`. */
  lemma ReportedAreUpcoming(es: seq<Entry>, today: CalendarDate, days: int, g: Greeting)
    requires Upcoming(es, today, days).Success? && g in Upcoming(es, today, days).value
    ensures exists i, d: CalendarDate ::
      0 <= i < |es| && es[i].birthday.Some? && es[i].name == g.name &&
      CongratulationDate(es[i].birthday.value, today) == Success(d) &&
      g.birthday == FormatDate(d) && Weekday(d) < 5 &&
      ToOrdinal(today) <= ToOrdinal(d) <= ToOrdinal(today) + days
  {
    var i := ReportedEntry(es, today, days, g);
    var d := QualifyingGreeting(es[i], today, days);
    assert 0 <= i < |es| && es[i].birthday.Some? && es[i].name == g.name &&
      CongratulationDate(es[i].birthday.value, today) == Success(d) && g.birthday == FormatDate(d) && Weekday(d) < 5 &&
      ToOrdinal(today) <= ToOrdinal(d) <= ToOrdinal(today) + days;
  }

  /** An entry without a birthday is never reported, whatever the window. */
  lemma NoBirthdayNotReported(es: seq<Entry>, today: CalendarDate, days: int, i: int)
    requires Upcoming(es, today, days).Success?
    requires 0 <= i < |es| && es[i].birthday.None?
    requires forall j :: 0 <= j < |es| && j != i ==> es[j].name != es[i].name
    ensures forall g :: g in Upcoming(es, today, days).value ==> g.name != es[i].name
  {
    forall g | g in Upcoming(es, today, days).value
      ensures g.name != es[i].name
    {
      UpcomingIsReported(es, today, days);
      ReportedMembers(es, today, days, g);
    }
  }

  /** Once a prefix of the entries fails, the whole query fails with the same error. */
  lemma FailureSticks(es: seq<Entry>, n: nat, today: CalendarDate, days: int)
    requires n <= |es| && Upcoming(es[..n], today, days).Failure?
    ensures Upcoming(es, today, days) == Upcoming(es[..n], today, days)
  {
    RunFailureSticks(es, n, VisitStep(today, days));
  }

  /** Entry `i` is the first entry that fails. */
  predicate FirstFailureAt(es: seq<Entry>, i: int, today: CalendarDate, days: int) {
    0 <= i < |es| && EntryFails(es[i], today, days) &&
    forall j :: 0 <= j < i ==> !EntryFails(es[j], today, days)
  }

  /** The error reported is the one raised by the first entry that fails. */
  lemma FirstFailureReported(es: seq<Entry>, today: CalendarDate, days: int)
    requires Upcoming(es, today, days).Failure?
    ensures exists i :: (FirstFailureAt(es, i, today, days) &&
      Visit(es[i], today, days).error == Upcoming(es, today, days).error)
  {
    var visit := VisitStep(today, days);
    RunFirstFailure(es, visit);
    var i :| 0 <= i < |es| && visit(es[i]).Failure? && visit(es[i]).error == Run(es, visit).error &&
      forall j :: 0 <= j < i ==> visit(es[j]).Success?;
    assert FirstFailureAt(es, i, today, days);
  }

  /** With a 29 February birthday on record outside a leap year's January
      and February, the whole query fails. */
  lemma LeapDayBirthdayFailsQuery(es: seq<Entry>, today: CalendarDate, days: int, i: int)
    requires 0 <= i < |es| && es[i].birthday.Some?
    requires es[i].birthday.value.month == 2 && es[i].birthday.value.day == 29
    requires !(IsLeapYear(today.year) && today.month <= 2)
    ensures Upcoming(es, today, days).Failure?
  {
    LeapDayOccurrence(es[i].birthday.value, today);
    assert EntryFails(es[i], today, days);
    UpcomingSucceeds(es, today, days);
  }

  /** The query over a single entry is that entry's step. */
  lemma UpcomingOne(e: Entry, today: CalendarDate, days: int, g: Greeting)
    requires Visit(e, today, days) == Success(Some(g))
    ensures Upcoming([e], today, days) == Success([g])
  {
    UpcomingStep([e], 0, today, days);
    assert [e][..1] == [e] && [e][..0] == [];
    assert Upcoming([], today, days) == Success([]);
    assert [] + [g] == [g];
  }

  /** A Wednesday birthday two days ahead is reported on its own date. */
  lemma WednesdayBirthdayReported(e: Entry, today: CalendarDate)
    requires e == Entry("anna", Some(Date(1990, 6, 12))) && today == Date(2024, 6, 10)
    ensures Upcoming([e], today, 7) == Success([Greeting("anna", "12.06.2024")])
  {
    var d := Date(2024, 6, 12);
    assert NextOccurrence(e.birthday.value, today) == Success(d);
    assert ToOrdinal(today) == 739047;
    assert ToOrdinal(d) == 739049 && Weekday(d) == 2;
    assert AdjustForWeekend(d) == d;
    assert FormatDate(d) == "12.06.2024";
    assert Visit(e, today, 7) == Success(Some(Greeting("anna", "12.06.2024")));
    UpcomingOne(e, today, 7, Greeting("anna", "12.06.2024"));
  }

  /** Saturday 15 June 2024 is celebrated on Monday 17 June. */
  lemma SaturdayJune15MovesToMonday()
    ensures AdjustForWeekend(Date(2024, 6, 15)) == Date(2024, 6, 17)
  {
    var d := Date(2024, 6, 15);
    assert ToOrdinal(d) == 739052 && Weekday(d) == 5;
    assert NextDay(d) == Date(2024, 6, 16);
    assert NextDay(Date(2024, 6, 16)) == Date(2024, 6, 17);
  }

  /** The step for a birthday on Saturday 15 June 2024, queried on
      Monday 10 June with a 7-day window. */
  lemma SaturdayBirthdayVisit(e: Entry, today: CalendarDate)
    requires e == Entry("ivan", Some(Date(1985, 6, 15))) && today == Date(2024, 6, 10)
    ensures Visit(e, today, 7) == Success(Some(Greeting("ivan", "17.06.2024")))
  {
    var d, monday := Date(2024, 6, 15), Date(2024, 6, 17);
    assert NextOccurrence(e.birthday.value, today) == Success(d);
    SaturdayJune15MovesToMonday();
    assert ToOrdinal(today) == 739047 && ToOrdinal(monday) == 739054;
    assert FormatDate(monday) == "17.06.2024";
  }

  /** A birthday falling on Saturday 15 June 2024 is reported on Monday the 17th. */
  lemma SaturdayBirthdayMovedToMonday(e: Entry, today: CalendarDate)
    requires e == Entry("ivan", Some(Date(1985, 6, 15))) && today == Date(2024, 6, 10)
    ensures Upcoming([e], today, 7) == Success([Greeting("ivan", "17.06.2024")])
  {
    SaturdayBirthdayVisit(e, today);
    UpcomingOne(e, today, 7, Greeting("ivan", "17.06.2024"));
  }

  /** The body of the loop in `get_upcoming_birthdays` for one record:
      raising is returning a failure, `append` is returning a greeting.
      It takes the same steps as `Visit`, statement by statement, and is
      proved equal to it; the loop calls this method so that its own proof
      only has to relate one record's step to `Visit`. */
  method VisitRecord(record: Record, today: CalendarDate, days: int) returns (r: Result<Option<Greeting>>)
    ensures r == Visit(Entry(record.name, record.birthday), today, days)
  {
    if record.birthday.None? {
      return Success(None);
    }
    var birthdayDate := record.birthday.value;
    var thisYear := ReplaceYear(birthdayDate, today.year);
    if thisYear.Failure? {
      return Failure(thisYear.error);
    }
    var birthdayThisYear: CalendarDate := thisYear.value;
    if Before(birthdayThisYear, today) {
      var nextYear := ReplaceYear(birthdayThisYear, today.year + 1);
      if nextYear.Failure? {
        return Failure(nextYear.error);
      }
      birthdayThisYear := nextYear.value;
    }
    assert NextOccurrence(birthdayDate, today) == Success(birthdayThisYear);
    birthdayThisYear := AdjustForWeekend(birthdayThisYear);
    if Before(birthdayThisYear, today) {
      return Success(None);
    }
    var windowEnd := ToOrdinal(today) + days;
    if !(0 < windowEnd <= MaxOrdinal) {
      return Failure(DateOverflow);
    }
    if ToOrdinal(birthdayThisYear) <= windowEnd {
      return Success(Some(Greeting(record.name, FormatDate(birthdayThisYear))));
    }
    return Success(None);
  }

  // ---------------------------------------------------------------------
  // The book

  class AddressBook {
    /** The dict's keys in insertion order. */
    var keys: seq<string>
    var data: map<string, Record>

    /** Every record is stored under its own name, and `keys` lists each
        stored name once. */
    ghost predicate Valid()
      reads this
    {
      Distinct(keys) &&
      (forall k :: k in data <==> k in keys) &&
      (forall k :: k in data ==> data[k].name == k)
    }

    /** The contacts of the book, by name. */
    ghost function Contacts(): map<string, Contact>
      reads this, data.Values
    {
      map k | k in data :: data[k].View()
    }

    /** When only the record under `name` may have changed (and it may be
        new), the contacts change at `name` only. */
    twostate lemma ContactsAfterOneChange(name: string)
      requires old(Valid()) && Valid() && name in data
      requires data.Keys == old(data.Keys) + {name}
      requires forall k :: k in old(data) && k != name ==> data[k] == old(data[k]) && unchanged(data[k])
      ensures Contacts() == old(Contacts())[name := data[name].View()]
    {
    }

    /** What the query reads, record by record, in iteration order. */
    ghost function Entries(): (es: seq<Entry>)
      reads this, data.Values
      requires Valid()
      ensures |es| == |keys|
      ensures forall i :: 0 <= i < |keys| ==> es[i] == Entry(keys[i], data[keys[i]].birthday)
    {
      seq(|keys|, i requires 0 <= i < |keys| && keys[i] in data reads this, data.Values =>
        Entry(keys[i], data[keys[i]].birthday))
    }

    constructor ()
      ensures Valid() && keys == [] && data == map[]
    {
      keys := [];
      data := map[];
    }

    /** `add_record`: store the record under its name, replacing any record
        stored there; a new name goes to the end of the order, a known one
        keeps its place. */
    method AddRecord(record: Record)
      requires Valid()
      modifies this
      ensures Valid()
      ensures data == old(data)[record.name := record]
      ensures keys == if record.name in old(data) then old(keys) else old(keys) + [record.name]
    {
      if record.name !in data {
        keys := keys + [record.name];
      }
      data := data[record.name := record];
    }

    /** `find`: the record stored under `name`, null when there is none. */
    method Find(name: string) returns (r: Record?)
      requires Valid()
      ensures r != null <==> name in data
      ensures r != null ==> r == data[name] && r.name == name
    {
      if name in data {
        return data[name];
      }
      return null;
    }

    /** `delete`: remove the name and its record; nothing happens when the
        name is absent. */
    method Delete(name: string)
      requires Valid()
      modifies this
      ensures Valid()
      ensures data == old(data) - {name}
      ensures keys == RemoveFirst(old(keys), name)
    {
      if name in data {
        RemoveFirstDistinct(keys, name);
        forall k | k != name ensures k in RemoveFirst(keys, name) <==> k in keys {
          RemoveFirstMembers(keys, name, k);
        }
        keys := RemoveFirst(keys, name);
        data := data - {name};
      } else {
        assert name !in keys;
      }
    }

    /** `get_upcoming_birthdays(days)` with "now" given as `today`: the
        records are visited in iteration order; the first error raised ends
        the query. The window is seven days unless given. */
    method GetUpcomingBirthdays(today: CalendarDate, days: int := 7) returns (r: Result<seq<Greeting>>)
      requires Valid()
      ensures r == Upcoming(Entries(), today, days)
    {
      ghost var es := Entries();
      var upcoming: seq<Greeting> := [];
      var i := 0;
      while i < |keys|
        invariant 0 <= i <= |keys|
        invariant Upcoming(es[..i], today, days) == Success(upcoming)
      {
        var record := data[keys[i]];
        assert es[i] == Entry(record.name, record.birthday);
        var visited := VisitRecord(record, today, days);
        UpcomingNext(es, i, today, days, upcoming, visited);
        if visited.Failure? {
          return Failure(visited.error);
        }
        if visited.value.Some? {
          upcoming := upcoming + [visited.value.value];
        }
        i := i + 1;
      }
      assert es[..i] == es;
      return Success(upcoming);
    }
  }
}
