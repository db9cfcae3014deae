/**
 * The birthday window of the address book, as values: which contacts to congratulate
 * within `days` days of `today`, and on which date. A birthday's occurrence is this year's
 * when it has not passed, else next year's; an occurrence on a Saturday or Sunday is
 * congratulated on the following Monday.
 */
module Birthdays {
  import opened Results
  import opened Calendar
  import opened DateText
  import opened Fields

  /** What Python's `date.replace` raises when the day does not exist in the target year. */
  const DAY_OUT_OF_RANGE := "day is out of range for month"

  /** What the window reads of one record: its name and its birthday. */
  datatype Contact = Contact(name: string, birthday: Option<Birthday>)

  /** One element of the result: `{"name": ..., "congratulation_date": ...}`. */
  datatype Entry = Entry(name: string, congratulationDate: string)

  /** Lines 82-84 of `__find_next_weekday`: how many days on the target weekday comes, counting a week when it is today. */
  function DaysAhead(current: int, weekday: int): int
  {
    var k := weekday - current;
    if k <= 0 then k + 7 else k
  }

  /** `__find_next_weekday`: the first day strictly after `d` that falls on `weekday`, one to seven days on. */
  function FindNextWeekday(d: Date, weekday: int): (r: Date)
    requires IsCalendarDate(d) && 0 <= weekday < 7
    ensures IsCalendarDate(r)
    ensures 1 <= DayNumber(r) - DayNumber(d) <= 7
    ensures Weekday(r) == weekday
    ensures forall n :: DayNumber(d) < n < DayNumber(r) ==> WeekdayOf(n) != weekday
  {
    DaysAheadReachesWeekday(DayNumber(d), weekday);
    AddDays(d, DaysAhead(Weekday(d), weekday))
  }

  /** On ordinals: the day `DaysAhead` away is the first later day that falls on `weekday`. */
  lemma DaysAheadReachesWeekday(n: int, weekday: int)
    requires 0 <= weekday < 7
    ensures 1 <= DaysAhead(WeekdayOf(n), weekday) <= 7
    ensures WeekdayOf(n + DaysAhead(WeekdayOf(n), weekday)) == weekday
    ensures forall m :: n < m < n + DaysAhead(WeekdayOf(n), weekday) ==> WeekdayOf(m) != weekday
  {
    var k := DaysAhead(WeekdayOf(n), weekday);
    forall m | n < m <= n + k
      ensures WeekdayOf(m) == (WeekdayOf(n) + (m - n)) % 7
    {
      WeekdayShift(n, m - n);
    }
  }

  /** Moving `k` days on moves the weekday `k` places round the week. */
  lemma WeekdayShift(n: int, k: int)
    ensures WeekdayOf(n + k) == (WeekdayOf(n) + k) % 7
  {
  }

  /** The dates Python can represent are exactly those up to ordinal 3652059, 31 December 9999. */
  lemma RepresentableIffUpToLastDay(d: Date)
    requires IsCalendarDate(d)
    ensures IsValidDate(d) <==> DayNumber(d) <= 3652059
  {
    LastDayIsFriday();
    BeforeIffSmallerDayNumber(d, Date(MAX_YEAR, 12, 31));
  }

  /**
   * `__adjust_for_weekend`: Saturday moves two days on and Sunday one, both to Monday;
   * weekdays stay. The shift never leaves the representable range: 31 December 9999 is a
   * Friday, so the last weekend of year 9999 is followed by a Monday of the same year.
   */
  function AdjustForWeekend(d: Date): (r: Date)
    requires IsCalendarDate(d)
    ensures IsCalendarDate(r) && !IsWeekend(r)
    ensures !IsWeekend(d) ==> r == d
    ensures Weekday(d) == SATURDAY ==> DayNumber(r) == DayNumber(d) + 2 && Weekday(r) == MONDAY
    ensures Weekday(d) == SATURDAY + 1 ==> DayNumber(r) == DayNumber(d) + 1 && Weekday(r) == MONDAY
    ensures IsValidDate(d) ==> IsValidDate(r)
  {
    if Weekday(d) >= SATURDAY then
      var r := FindNextWeekday(d, MONDAY);
      WeekendShift(DayNumber(d), DayNumber(r));
      RepresentableIffUpToLastDay(d);
      RepresentableIffUpToLastDay(r);
      r
    else d
  }

  /**
   * On ordinals: the next Monday is two days after a Saturday and one after a Sunday, and
   * it is never past ordinal 3652059, a Friday, when the weekend day is not.
   */
  lemma WeekendShift(n: int, m: int)
    requires WeekdayOf(n) >= SATURDAY && 1 <= m - n <= 7 && WeekdayOf(m) == MONDAY
    ensures m - n == if WeekdayOf(n) == SATURDAY then 2 else 1
    ensures n <= 3652059 ==> m <= 3652059
  {
  }

  /** `date.replace(year=year)`: the same month and day in another year, or the error Python raises. */
  function ReplaceYear(d: Date, year: int): (r: Result<Date, string>)
    requires IsValidDate(d)
    ensures r.Success? ==> IsValidDate(r.value) && r.value == Date(year, d.month, d.day)
    ensures r.Failure? <==>
      year < MIN_YEAR || year > MAX_YEAR || (d.month == 2 && d.day == 29 && !IsLeapYear(year))
  {
    if year < MIN_YEAR || year > MAX_YEAR then Failure("year " + DecimalText(year) + " is out of range")
    else if d.day > DaysInMonth(year, d.month) then Failure(DAY_OUT_OF_RANGE)
    else Success(Date(year, d.month, d.day))
  }

  /**
   * `occurrence` is the birthday `birth` as the window counts it: the same month and day,
   * not before today, in this year, or in next year when this year's date has passed.
   */
  ghost predicate IsOccurrence(occurrence: Date, birth: Date, today: Date)
  {
    && IsValidDate(occurrence)
    && occurrence.month == birth.month && occurrence.day == birth.day
    && !Before(occurrence, today)
    && (occurrence.year == today.year
        || (occurrence.year == today.year + 1 && Before(Date(today.year, birth.month, birth.day), today)))
  }

  /**
   * When the source fails to find an occurrence: a 29 February birthday in a year that is
   * not a leap year or whose 29 February has passed, or any passed birthday in year 9999.
   */
  ghost predicate OccurrenceFails(birth: Date, today: Date)
  {
    || (birth.month == 2 && birth.day == 29
        && (!IsLeapYear(today.year) || Before(Date(today.year, 2, 29), today)))
    || (today.year == MAX_YEAR && Before(Date(MAX_YEAR, birth.month, birth.day), today))
  }

  /** The contact has a birthday whose occurrence the source cannot compute. */
  ghost predicate ContactFails(c: Contact, today: Date)
  {
    c.birthday.Some? && OccurrenceFails(BirthDate(c.birthday.value), today)
  }

  /** Lines 99-102 of `get_upcoming_birthdays`: this year's date, or next year's when it has passed. */
  function NextOccurrence(birth: Date, today: Date): (r: Result<Date, string>)
    requires IsValidDate(birth) && IsValidDate(today)
    ensures r.Success? ==> IsOccurrence(r.value, birth, today)
    ensures r.Failure? <==> OccurrenceFails(birth, today)
  {
    match ReplaceYear(birth, today.year)
    case Failure(e) => Failure(e)
    case Success(thisYear) =>
      if Before(thisYear, today) then ReplaceYear(birth, today.year + 1) else Success(thisYear)
  }

  /** There is at most one occurrence of a birthday for a given day. */
  lemma OccurrenceIsUnique(a: Date, b: Date, birth: Date, today: Date)
    requires IsOccurrence(a, birth, today) && IsOccurrence(b, birth, today)
    ensures a == b
  {
  }

  /**
   * Entry `e` congratulates contact `c`: it carries the contact's name and a weekday date
   * 0..`days` days from today, reached from the birthday's occurrence by the weekend shift.
   */
  ghost predicate Congratulates(c: Contact, e: Entry, today: Date, days: int)
    requires IsValidDate(today)
  {
    && c.birthday.Some?
    && e.name == c.name
    && ParseDate(e.congratulationDate).Some?
    && var date := ParseDate(e.congratulationDate).value;
       && !IsWeekend(date)
       && 0 <= DayNumber(date) - DayNumber(today) <= days
       && exists occurrence ::
            && IsOccurrence(occurrence, BirthDate(c.birthday.value), today)
            && 0 <= DayNumber(date) - DayNumber(occurrence) <= 2
            && (!IsWeekend(occurrence) ==> date == occurrence)
            && (IsWeekend(occurrence) ==> Weekday(date) == MONDAY)
  }

  /** The body of the loop of `get_upcoming_birthdays` for one record. */
  function Congratulation(c: Contact, today: Date, days: int): (r: Result<Option<Entry>, string>)
    requires IsValidDate(today)
    ensures r.Success? && r.value.Some? ==> Congratulates(c, r.value.value, today, days)
    ensures r.Failure? <==> ContactFails(c, today)
  {
    match c.birthday
    case None => Success(None)
    case Some(b) =>
      match NextOccurrence(BirthDate(b), today)
      case Failure(e) => Failure(e)
      case Success(occurrence) =>
        var date := AdjustForWeekend(occurrence);
        if 0 <= DayNumber(date) - DayNumber(today) <= days
        then Success(Some(Entry(c.name, FormatDate(date))))
        else Success(None)
  }

  /** The per-record outcome for each contact, in order. */
  function Congratulations(cs: seq<Contact>, today: Date, days: int): (rs: seq<Result<Option<Entry>, string>>)
    requires IsValidDate(today)
    ensures |rs| == |cs|
    ensures forall j :: 0 <= j < |cs| ==> rs[j] == Congratulation(cs[j], today, days)
  {
    seq(|cs|, j requires 0 <= j < |cs| => Congratulation(cs[j], today, days))
  }

  /**
   * The list the loop of `get_upcoming_birthdays` builds from per-record outcomes: the
   * entries in order, or the first error, which ends the walk.
   */
  function Collect<T, E>(rs: seq<Result<Option<T>, E>>): Result<seq<T>, E>
    decreases |rs|
  {
    if rs == [] then Success([])
    else
      match Collect(rs[..|rs| - 1])
      case Failure(e) => Failure(e)
      case Success(init) =>
        match rs[|rs| - 1]
        case Failure(e) => Failure(e)
        case Success(None) => Success(init)
        case Success(Some(x)) => Success(init + [x])
  }

  /** `get_upcoming_birthdays(days)` over the records in insertion order. */
  function Upcoming(cs: seq<Contact>, today: Date, days: int): Result<seq<Entry>, string>
    requires IsValidDate(today)
  {
    Collect(Congratulations(cs, today, days))
  }

  /** A failure among the first `k` outcomes is the failure of the whole walk. */
  lemma {:induction false} CollectPrefixFailure<T, E>(rs: seq<Result<Option<T>, E>>, k: nat)
    requires k <= |rs| && Collect(rs[..k]).Failure?
    ensures Collect(rs) == Collect(rs[..k])
    decreases |rs| - k
  {
    if k < |rs| {
      var init := rs[..|rs| - 1];
      assert init[..k] == rs[..k];
      CollectPrefixFailure(init, k);
    } else {
      assert rs[..k] == rs;
    }
  }

  /**
   * One step of the walk: outcome `i` extends what the outcomes before it collected, and
   * when it is an error the whole walk ends with that error.
   */
  lemma CollectStep<T, E>(rs: seq<Result<Option<T>, E>>, i: nat, init: seq<T>)
    requires i < |rs| && Collect(rs[..i]) == Success(init)
    ensures Collect(rs[..i + 1]) ==
      match rs[i]
      case Failure(e) => Failure(e)
      case Success(None) => Success(init)
      case Success(Some(x)) => Success(init + [x])
    ensures rs[i].Failure? ==> Collect(rs) == Failure(rs[i].error)
  {
    assert rs[..i + 1][..i] == rs[..i];
    if rs[i].Failure? {
      CollectPrefixFailure(rs, i + 1);
    }
  }

  /** The walk fails exactly when some outcome is an error. */
  lemma {:induction false} CollectFailsIff<T, E>(rs: seq<Result<Option<T>, E>>)
    ensures Collect(rs).Failure? <==> exists j :: 0 <= j < |rs| && rs[j].Failure?
    decreases |rs|
  {
    if rs != [] {
      var init := rs[..|rs| - 1];
      CollectFailsIff(init);
      if Collect(init).Failure? {
        var j :| 0 <= j < |init| && init[j].Failure?;
        assert rs[j] == init[j];
      } else if rs[|rs| - 1].Success? {
        forall j | 0 <= j < |rs|
          ensures rs[j].Success?
        {
          if j < |init| {
            assert rs[j] == init[j];
          }
        }
      }
    }
  }

  predicate Increasing(idx: seq<nat>)
  {
    forall i, j :: 0 <= i < j < |idx| ==> idx[i] < idx[j]
  }

  /** Entry `i` of `xs` comes from outcome `idx[i]`, and the positions increase. */
  ghost predicate Picked<T, E>(rs: seq<Result<Option<T>, E>>, xs: seq<T>, idx: seq<nat>)
  {
    && |idx| == |xs|
    && Increasing(idx)
    && forall i :: 0 <= i < |idx| ==> idx[i] < |rs| && rs[idx[i]] == Success(Some(xs[i]))
  }

  /** Appending a position larger than every earlier one keeps the positions increasing. */
  lemma IncreasingLast(idx: seq<nat>, k: nat)
    requires Increasing(idx)
    requires forall i :: 0 <= i < |idx| ==> idx[i] < k
    ensures Increasing(idx + [k])
  {
    var idx' := idx + [k];
    forall i, j | 0 <= i < j < |idx'|
      ensures idx'[i] < idx'[j]
    {
      assert idx'[i] == idx[i];
    }
  }

  /** Picks among all outcomes but the last, extended by the last when it is an entry. */
  lemma PickedLast<T, E>(rs: seq<Result<Option<T>, E>>, xs: seq<T>, idx: seq<nat>)
    requires rs != [] && Picked(rs[..|rs| - 1], xs, idx)
    ensures Picked(rs, xs, idx)
    ensures rs[|rs| - 1].Success? && rs[|rs| - 1].value.Some? ==>
      Picked(rs, xs + [rs[|rs| - 1].value.value], idx + [|rs| - 1])
  {
    var init := rs[..|rs| - 1];
    forall i | 0 <= i < |idx|
      ensures idx[i] < |rs| && rs[idx[i]] == Success(Some(xs[i]))
    {
      assert rs[idx[i]] == init[idx[i]];
    }
    if rs[|rs| - 1].Success? && rs[|rs| - 1].value.Some? {
      var idx', xs' := idx + [|rs| - 1], xs + [rs[|rs| - 1].value.value];
      IncreasingLast(idx, |rs| - 1);
      forall i | 0 <= i < |idx'|
        ensures idx'[i] < |rs| && rs[idx'[i]] == Success(Some(xs'[i]))
      {
        if i < |idx| {
          assert idx'[i] == idx[i] && xs'[i] == xs[i];
        }
      }
    }
  }

  /** Every collected entry comes from its own outcome, in the outcomes' order. */
  lemma {:induction false} CollectSound<T, E>(rs: seq<Result<Option<T>, E>>)
    requires Collect(rs).Success?
    ensures exists idx :: Picked(rs, Collect(rs).value, idx)
    decreases |rs|
  {
    if rs == [] {
      assert Picked(rs, [], []);
    } else {
      var init := rs[..|rs| - 1];
      CollectSound(init);
      var idx: seq<nat> :| Picked(init, Collect(init).value, idx);
      PickedLast(rs, Collect(init).value, idx);
      if rs[|rs| - 1].value.Some? {
        assert Picked(rs, Collect(rs).value, idx + [|rs| - 1]);
      } else {
        assert Picked(rs, Collect(rs).value, idx);
      }
    }
  }

  /** Every entry among the outcomes is collected. */
  lemma {:induction false} CollectComplete<T, E>(rs: seq<Result<Option<T>, E>>, j: nat)
    requires Collect(rs).Success?
    requires j < |rs| && rs[j].Success? && rs[j].value.Some?
    ensures rs[j].value.value in Collect(rs).value
    decreases |rs|
  {
    var init := rs[..|rs| - 1];
    if j < |rs| - 1 {
      assert init[j] == rs[j];
      CollectComplete(init, j);
    }
  }

  /** With no entries among the outcomes, and no error, nothing is collected. */
  lemma {:induction false} CollectNothing<T, E>(rs: seq<Result<Option<T>, E>>)
    requires forall j :: 0 <= j < |rs| ==> rs[j] == Success(None)
    ensures Collect(rs) == Success([])
    decreases |rs|
  {
    if rs != [] {
      var init := rs[..|rs| - 1];
      assert forall j :: 0 <= j < |init| ==> init[j] == rs[j];
      CollectNothing(init);
    }
  }

  /**
   * `idx` picks, for each entry, the contact it congratulates; the picks strictly increase,
   * so the entries follow the order of the contacts.
   */
  ghost predicate Selects(cs: seq<Contact>, es: seq<Entry>, idx: seq<nat>, today: Date, days: int)
    requires IsValidDate(today)
  {
    && |idx| == |es|
    && Increasing(idx)
    && forall i :: 0 <= i < |idx| ==> idx[i] < |cs| && Congratulates(cs[idx[i]], es[i], today, days)
  }

  /** Every entry congratulates a distinct contact with a birthday, in the contacts' order. */
  lemma UpcomingSound(cs: seq<Contact>, today: Date, days: int)
    requires IsValidDate(today)
    requires Upcoming(cs, today, days).Success?
    ensures exists idx :: Selects(cs, Upcoming(cs, today, days).value, idx, today, days)
  {
    var rs := Congratulations(cs, today, days);
    var es := Collect(rs).value;
    CollectSound(rs);
    var idx: seq<nat> :| Picked(rs, es, idx);
    forall i | 0 <= i < |idx|
      ensures idx[i] < |cs| && Congratulates(cs[idx[i]], es[i], today, days)
    {
      assert Congratulation(cs[idx[i]], today, days) == Success(Some(es[i]));
    }
    assert Selects(cs, es, idx, today, days);
  }

  /**
   * Every contact whose occurrence, after the weekend shift, lies within the window appears
   * in the result, with that date.
   */
  lemma UpcomingComplete(cs: seq<Contact>, today: Date, days: int, j: nat, occurrence: Date)
    requires IsValidDate(today)
    requires Upcoming(cs, today, days).Success?
    requires j < |cs| && cs[j].birthday.Some?
    requires IsOccurrence(occurrence, BirthDate(cs[j].birthday.value), today)
    requires 0 <= DayNumber(AdjustForWeekend(occurrence)) - DayNumber(today) <= days
    ensures Entry(cs[j].name, FormatDate(AdjustForWeekend(occurrence))) in Upcoming(cs, today, days).value
  {
    var rs := Congratulations(cs, today, days);
    UpcomingFailsIff(cs, today, days);
    CongratulationOfOccurrence(cs[j], today, days, occurrence);
    assert rs[j] == Congratulation(cs[j], today, days);
    CollectComplete(rs, j);
  }

  /** A contact whose shifted occurrence lies within the window is congratulated on that date. */
  lemma CongratulationOfOccurrence(c: Contact, today: Date, days: int, occurrence: Date)
    requires IsValidDate(today) && c.birthday.Some? && !ContactFails(c, today)
    requires IsOccurrence(occurrence, BirthDate(c.birthday.value), today)
    requires 0 <= DayNumber(AdjustForWeekend(occurrence)) - DayNumber(today) <= days
    ensures Congratulation(c, today, days) == Success(Some(Entry(c.name, FormatDate(AdjustForWeekend(occurrence)))))
  {
    var birth := BirthDate(c.birthday.value);
    var found := NextOccurrence(birth, today).value;
    OccurrenceIsUnique(found, occurrence, birth, today);
  }

  /** The window fails exactly when some contact's birthday has no occurrence the source can compute. */
  lemma UpcomingFailsIff(cs: seq<Contact>, today: Date, days: int)
    requires IsValidDate(today)
    ensures Upcoming(cs, today, days).Failure? <==> exists j :: 0 <= j < |cs| && ContactFails(cs[j], today)
  {
    var rs := Congratulations(cs, today, days);
    CollectFailsIff(rs);
    if exists j :: 0 <= j < |cs| && ContactFails(cs[j], today) {
      var j :| 0 <= j < |cs| && ContactFails(cs[j], today);
      assert rs[j].Failure?;
    }
  }

  /** Without birthdays there is nothing to congratulate. */
  lemma NoBirthdaysNoEntries(cs: seq<Contact>, today: Date, days: int)
    requires IsValidDate(today)
    requires forall j :: 0 <= j < |cs| ==> cs[j].birthday.None?
    ensures Upcoming(cs, today, days) == Success([])
  {
    CollectNothing(Congratulations(cs, today, days));
  }

  /** The birthday text of the example below. */
  lemma ExampleBirthdayText()
    ensures FormatDate(Date(1991, 8, 24)) == "24.08.1991"
  {
    PaddedTwo(24);
    PaddedTwo(8);
    PaddedFour(1991);
  }

  /** The congratulation text of the example below. */
  lemma ExampleCongratulationText()
    ensures FormatDate(Date(2024, 8, 26)) == "26.08.2024"
  {
    PaddedTwo(26);
    PaddedTwo(8);
    PaddedFour(2024);
  }

  /** The calendar facts of the example below. */
  lemma ExampleDates()
    ensures IsValidDate(Date(2024, 8, 20)) && IsValidDate(Date(1991, 8, 24))
    ensures NextOccurrence(Date(1991, 8, 24), Date(2024, 8, 20)) == Success(Date(2024, 8, 24))
    ensures AdjustForWeekend(Date(2024, 8, 24)) == Date(2024, 8, 26)
    ensures DayNumber(Date(2024, 8, 26)) - DayNumber(Date(2024, 8, 20)) == 6
  {
    DaysBeforeYearClosedForm(2024);
    assert DayNumber(Date(2024, 8, 24)) == 739122;
    assert Weekday(Date(2024, 8, 24)) == SATURDAY;
    var monday := AdjustForWeekend(Date(2024, 8, 24));
    BeforeIffSmallerDayNumber(monday, Date(2024, 8, 26));
  }

  /** The stored example birthday denotes 24 August 1991. */
  lemma ExampleBirthDate(b: Birthday)
    requires b.value == "24.08.1991"
    ensures BirthDate(b) == Date(1991, 8, 24)
  {
    ExampleBirthdayText();
    var d := BirthDate(b);
    assert ParseDate(FormatDate(d)) == Some(d);
    assert ParseDate(FormatDate(Date(1991, 8, 24))) == Some(Date(1991, 8, 24));
  }

  /** The example contact is congratulated on Monday 26 August 2024. */
  lemma ExampleCongratulation(b: Birthday)
    requires b.value == "24.08.1991"
    ensures IsValidDate(Date(2024, 8, 20))
    ensures Congratulation(Contact("Alice", Some(b)), Date(2024, 8, 20), 7)
      == Success(Some(Entry("Alice", "26.08.2024")))
  {
    ExampleBirthDate(b);
    ExampleDates();
    ExampleCongratulationText();
  }

  /**
   * A birthday on Saturday 24 August 2024, seen on Tuesday 20 August 2024 with a window of
   * seven days, is congratulated on Monday 26 August 2024.
   */
  lemma SaturdayBirthdayExample(b: Birthday)
    requires b.value == "24.08.1991"
    ensures IsValidDate(Date(2024, 8, 20))
    ensures Upcoming([Contact("Alice", Some(b))], Date(2024, 8, 20), 7)
      == Success([Entry("Alice", "26.08.2024")])
  {
    var alice := Contact("Alice", Some(b));
    var today := Date(2024, 8, 20);
    ExampleCongratulation(b);
    var rs := Congratulations([alice], today, 7);
    assert rs[..0] == [];
    CollectStep(rs, 0, []);
    assert rs[..1] == rs;
    assert [] + [Entry("Alice", "26.08.2024")] == [Entry("Alice", "26.08.2024")];
  }
}
