/** The congratulation-date computation of `get_upcoming_birthdays`, as a
    function over the book's records in iteration order, with the date moved
    off the weekend by `find_next_weekday` and `adjust_for_weekend`. */
module Birthdays {
  import opened Wrappers
  import opened Calendar
  import opened Fields
  import opened Sequences

  /** `days_ahead` in `find_next_weekday`: from weekday `from` forward to
      weekday `to`, a whole week when they are the same. */
  function DaysAhead(from: int, to: int): (n: int)
    requires 0 <= from < 7 && 0 <= to < 7
    ensures 1 <= n <= 7 && Advance(from, n) == to
    ensures forall k :: 1 <= k < n ==> Advance(from, k) != to
  {
    var ahead := to - from;
    if ahead <= 0 then ahead + 7 else ahead
  }

  /** `find_next_weekday(start_date, weekday)`: the first date strictly after
      `start` that falls on `weekday`. */
  function FindNextWeekday(start: Date, weekday: int): (r: Date)
    requires ValidDate(start) && 0 <= weekday < 7
    ensures ValidDate(r) && Weekday(r) == weekday
    ensures 1 <= DayNumber(r) - DayNumber(start) <= 7
    ensures forall k: nat :: 1 <= k < DayNumber(r) - DayNumber(start) ==> Weekday(AddDays(start, k)) != weekday
  {
    var n := DaysAhead(Weekday(start), weekday);
    WeekdayAfter(start, n);
    forall k: nat | 1 <= k < n ensures Weekday(AddDays(start, k)) != weekday {
      WeekdayAfter(start, k);
    }
    AddDays(start, n)
  }

  /** `adjust_for_weekend(birthday)`: a Saturday or Sunday moves to the next
      Monday, any other day stays. */
  function AdjustForWeekend(birthday: Date): (r: Date)
    requires ValidDate(birthday)
    ensures ValidDate(r) && Weekday(r) < 5
    ensures Weekday(birthday) < 5 ==> r == birthday
    ensures Weekday(birthday) == 5 ==> DayNumber(r) == DayNumber(birthday) + 2
    ensures Weekday(birthday) == 6 ==> DayNumber(r) == DayNumber(birthday) + 1
  {
    if Weekday(birthday) >= 5 then FindNextWeekday(birthday, 0) else birthday
  }

  /** The congratulation date chosen in the loop: adjusted only when the
      birthday is a Saturday or Sunday, which is the same as always calling
      `AdjustForWeekend`. */
  function CongratulationDate(b: Date): (r: Date)
    requires ValidDate(b)
    ensures r == AdjustForWeekend(b)
  {
    if Weekday(b) == 5 || Weekday(b) == 6 then AdjustForWeekend(b) else b
  }

  /** Moving a birthday off the weekend never leaves Python's date range, so
      the `OverflowError` of `date + timedelta` cannot arise: 30 and 31
      December 9999 are a Thursday and a Friday. */
  lemma CongratulationInRange(b: Date)
    requires InRange(b)
    ensures InRange(CongratulationDate(b))
  {
    var w := Weekday(b);
    if w >= 5 {
      var n1 := NextDay(b);
      var n2 := NextDay(n1);
      assert AddDays(b, 1) == n1 by {
        assert AddDays(n1, 0) == n1;
      }
      assert AddDays(b, 2) == n2 by {
        assert AddDays(n2, 0) == n2;
        assert AddDays(n1, 1) == n2;
      }
      if b.year == MaxYear {
        LastDaysOfMaxYear();
        assert b != Date(MaxYear, 12, 30) && b != Date(MaxYear, 12, 31);
        assert n1.year == MaxYear && n1 != Date(MaxYear, 12, 31);
      }
    }
  }

  /** One record as the loop sees it: its name and its optional birthday. */
  datatype Entry = Entry(name: Name, birthday: Option<Birthday>)

  /** `{'Name': ..., 'Birthday': 'DD-MM-YYYY'}`. */
  datatype Greeting = Greeting(name: Name, birthday: string)

  /** `birthday.replace(year=today.year)` after re-parsing the stored text. */
  function ThisYear(text: Birthday, today: Date): (r: Option<Date>)
    requires InRange(today)
  {
    ReplaceYear(ParseDate(text).value, today.year)
  }

  /** The birthday text of `e` cannot be moved into today's year. */
  predicate LeapDayClash(e: Entry, today: Date)
    requires InRange(today)
  {
    e.birthday.Some? && ThisYear(e.birthday.value, today).None?
  }

  /** `e` has a birthday whose date in today's year is 0 to 7 days ahead. */
  predicate InWindow(e: Entry, today: Date)
    requires InRange(today)
  {
    e.birthday.Some? && ThisYear(e.birthday.value, today).Some?
    && 0 <= DayNumber(ThisYear(e.birthday.value, today).value) - DayNumber(today) <= 7
  }

  /** The greeting line for `name` whose birthday this year is `b`. */
  function Greet(name: Name, b: Date): (g: Greeting)
    requires InRange(b)
  {
    CongratulationInRange(b);
    Greeting(name, FormatDate(CongratulationDate(b)))
  }

  /** The greeting `e` produces when it is in the window. */
  function GreetingFor(e: Entry, today: Date): (g: Greeting)
    requires InRange(today) && InWindow(e, today)
    ensures g.name == e.name
    ensures var b := ThisYear(e.birthday.value, today).value;
      ParseDate(g.birthday) == Some(AdjustForWeekend(b))
  {
    var b := ThisYear(e.birthday.value, today).value;
    CongratulationInRange(b);
    ParseFormat(CongratulationDate(b));
    Greet(e.name, b)
  }

  /** One iteration of the loop over the records. */
  function Visit(e: Entry, today: Date): (r: Result<seq<Greeting>, Error>)
    requires InRange(today)
    ensures r.Failure? <==> LeapDayClash(e, today)
    ensures r.Failure? ==> r.error == LeapDayInCommonYear
  {
    match e.birthday
    case None => Success([])
    case Some(text) =>
      match ThisYear(text, today)
      case None => Failure(LeapDayInCommonYear)
      case Some(b) =>
        if 0 <= DayNumber(b) - DayNumber(today) <= 7 then Success([Greet(e.name, b)])
        else Success([])
  }

  /** A record that does not fail yields its greeting when it is in the
      window, and nothing otherwise. */
  lemma VisitGreets(e: Entry, today: Date)
    requires InRange(today) && Visit(e, today).Success?
    ensures Visit(e, today).value == if InWindow(e, today) then [GreetingFor(e, today)] else []
  {
  }

  /** `get_upcoming_birthdays()` on records `es` in iteration order: the
      greetings in order, or the error of the first record whose birthday
      cannot be moved into today's year. */
  function Upcoming(es: seq<Entry>, today: Date): (r: Result<seq<Greeting>, Error>)
    requires InRange(today)
    decreases |es|
  {
    if es == [] then Success([])
    else
      match Upcoming(es[..|es| - 1], today)
      case Failure(e) => Failure(e)
      case Success(done) =>
        match Visit(es[|es| - 1], today)
        case Failure(e) => Failure(e)
        case Success(more) => Success(done + more)
  }

  /** At most one greeting per record. */
  lemma {:induction false} UpcomingLength(es: seq<Entry>, today: Date)
    requires InRange(today) && Upcoming(es, today).Success?
    ensures |Upcoming(es, today).value| <= |es|
    decreases |es|
  {
    if es != [] {
      UpcomingLast(es, today);
      UpcomingLength(es[..|es| - 1], today);
    }
  }

  /** For each record, whether it is in the window. */
  function WindowFlags(es: seq<Entry>, today: Date): (flags: seq<bool>)
    requires InRange(today)
    ensures |flags| == |es|
    ensures forall i :: 0 <= i < |es| ==> flags[i] == InWindow(es[i], today)
  {
    seq(|es|, i requires 0 <= i < |es| => InWindow(es[i], today))
  }

  /** The positions of the records that are in the window, in iteration order. */
  function WindowIndices(es: seq<Entry>, today: Date): (idx: seq<int>)
    requires InRange(today)
    ensures forall j :: 0 <= j < |idx| ==> 0 <= idx[j] < |es| && InWindow(es[idx[j]], today)
  {
    Positions(WindowFlags(es, today))
  }

  /** How the window positions grow by one record. */
  lemma WindowIndicesLast(es: seq<Entry>, today: Date)
    requires InRange(today) && es != []
    ensures WindowIndices(es, today) ==
      var earlier := WindowIndices(es[..|es| - 1], today);
      if InWindow(es[|es| - 1], today) then earlier + [|es| - 1] else earlier
  {
    var flags := WindowFlags(es, today);
    assert flags[..|es| - 1] == WindowFlags(es[..|es| - 1], today);
  }

  /** The window positions are increasing and include every in-window record. */
  lemma WindowIndicesExact(es: seq<Entry>, today: Date)
    requires InRange(today)
    ensures var idx := WindowIndices(es, today);
      && (forall j1, j2 :: 0 <= j1 < j2 < |idx| ==> idx[j1] < idx[j2])
      && (forall i :: 0 <= i < |es| && InWindow(es[i], today) ==> i in idx)
  {
    PositionsIncreasing(WindowFlags(es, today));
    PositionsCover(WindowFlags(es, today));
  }

  /** A run that fails stops at a record whose birthday cannot be moved into
      today's year, and its error says so. */
  lemma {:induction false} UpcomingFailsOnClash(es: seq<Entry>, today: Date)
    requires InRange(today) && Upcoming(es, today).Failure?
    ensures exists i :: 0 <= i < |es| && LeapDayClash(es[i], today)
    ensures Upcoming(es, today).error == LeapDayInCommonYear
    decreases |es|
  {
    var prefix := es[..|es| - 1];
    UpcomingFailsStep(es, today);
    if Upcoming(prefix, today).Failure? {
      UpcomingFailsOnClash(prefix, today);
      var i :| 0 <= i < |prefix| && LeapDayClash(prefix[i], today);
      assert es[i] == prefix[i];
    } else {
      assert LeapDayClash(es[|es| - 1], today);
    }
  }

  /** A record whose birthday cannot be moved into today's year makes the
      run fail. */
  lemma {:induction false} ClashFailsUpcoming(es: seq<Entry>, i: int, today: Date)
    requires InRange(today) && 0 <= i < |es| && LeapDayClash(es[i], today)
    ensures Upcoming(es, today).Failure?
    decreases |es|
  {
    UpcomingFailsStep(es, today);
    var prefix := es[..|es| - 1];
    if i < |prefix| {
      assert prefix[i] == es[i];
      ClashFailsUpcoming(prefix, i, today);
    }
  }

  /** The call fails exactly when some record has a 29 February birthday and
      today's year is a common year. */
  lemma UpcomingFailsIff(es: seq<Entry>, today: Date)
    requires InRange(today)
    ensures Upcoming(es, today).Failure? <==> exists i :: 0 <= i < |es| && LeapDayClash(es[i], today)
    ensures Upcoming(es, today).Failure? ==> Upcoming(es, today).error == LeapDayInCommonYear
  {
    if Upcoming(es, today).Failure? {
      UpcomingFailsOnClash(es, today);
    }
    forall i | 0 <= i < |es| && LeapDayClash(es[i], today) ensures Upcoming(es, today).Failure? {
      ClashFailsUpcoming(es, i, today);
    }
  }

  /** A run fails exactly when the run on all records but the last fails, or
      the last record cannot be moved into today's year. */
  lemma UpcomingFailsStep(es: seq<Entry>, today: Date)
    requires InRange(today) && es != []
    ensures var prior := Upcoming(es[..|es| - 1], today);
      && (Upcoming(es, today).Failure? <==> prior.Failure? || LeapDayClash(es[|es| - 1], today))
      && (Upcoming(es, today).Failure? ==>
            Upcoming(es, today).error == if prior.Failure? then prior.error else LeapDayInCommonYear)
  {
  }

  /** Visiting one more record after a run that succeeded. */
  lemma UpcomingAppend(es: seq<Entry>, e: Entry, today: Date)
    requires InRange(today) && Upcoming(es, today).Success? && Visit(e, today).Success?
    ensures Upcoming(es + [e], today) == Success(Upcoming(es, today).value + Visit(e, today).value)
  {
    assert (es + [e])[..|es|] == es;
  }

  /** Unfolds `Upcoming` on its last record. */
  lemma UpcomingLast(es: seq<Entry>, today: Date)
    requires InRange(today) && es != [] && Upcoming(es, today).Success?
    ensures Upcoming(es[..|es| - 1], today).Success? && Visit(es[|es| - 1], today).Success?
    ensures Upcoming(es, today).value == Upcoming(es[..|es| - 1], today).value + Visit(es[|es| - 1], today).value
  {
  }

  /** The greetings of the in-window records, in iteration order. */
  function WindowGreetings(es: seq<Entry>, today: Date): (gs: seq<Greeting>)
    requires InRange(today)
    ensures |gs| == |WindowIndices(es, today)|
  {
    var idx := WindowIndices(es, today);
    seq(|idx|, j requires 0 <= j < |idx| => GreetingFor(es[idx[j]], today))
  }

  /** How the window greetings grow by one record. */
  lemma WindowGreetingsLast(es: seq<Entry>, today: Date)
    requires InRange(today) && es != []
    ensures WindowGreetings(es, today) == WindowGreetings(es[..|es| - 1], today)
      + if InWindow(es[|es| - 1], today) then [GreetingFor(es[|es| - 1], today)] else []
  {
    var prefix := es[..|es| - 1];
    var earlier := WindowIndices(prefix, today);
    WindowIndicesLast(es, today);
    forall j | 0 <= j < |earlier| ensures WindowGreetings(es, today)[j] == WindowGreetings(prefix, today)[j] {
      assert prefix[earlier[j]] == es[earlier[j]];
    }
  }

  /** A run that does not fail returns exactly the window greetings. */
  lemma {:induction false} UpcomingIsWindowGreetings(es: seq<Entry>, today: Date)
    requires InRange(today) && Upcoming(es, today).Success?
    ensures Upcoming(es, today).value == WindowGreetings(es, today)
    decreases |es|
  {
    if es != [] {
      UpcomingLast(es, today);
      VisitGreets(es[|es| - 1], today);
      UpcomingIsWindowGreetings(es[..|es| - 1], today);
      WindowGreetingsLast(es, today);
    }
  }

  /** The greetings are exactly those of the in-window records, one each and
      in iteration order. */
  lemma UpcomingSelects(es: seq<Entry>, today: Date)
    requires InRange(today) && Upcoming(es, today).Success?
    ensures var out, idx := Upcoming(es, today).value, WindowIndices(es, today);
      |out| == |idx| && forall j :: 0 <= j < |idx| ==> out[j] == GreetingFor(es[idx[j]], today)
  {
    UpcomingIsWindowGreetings(es, today);
  }

  /** Every greeting comes from a record whose birthday this year is 0 to 7
      days ahead, and carries that record's name and congratulation date. */
  lemma UpcomingSound(es: seq<Entry>, today: Date)
    requires InRange(today) && Upcoming(es, today).Success?
    ensures forall g :: g in Upcoming(es, today).value ==>
      exists i :: 0 <= i < |es| && InWindow(es[i], today) && g == GreetingFor(es[i], today)
  {
    UpcomingSelects(es, today);
    var out, idx := Upcoming(es, today).value, WindowIndices(es, today);
    forall g | g in out
      ensures exists i :: 0 <= i < |es| && InWindow(es[i], today) && g == GreetingFor(es[i], today)
    {
      var j :| 0 <= j < |out| && out[j] == g;
      assert InWindow(es[idx[j]], today) && g == GreetingFor(es[idx[j]], today);
    }
  }

  /** No two records share a name (true of the book's records, whose names
      are its keys). */
  predicate DistinctNames(es: seq<Entry>) {
    forall i, j :: 0 <= i < j < |es| ==> es[i].name != es[j].name
  }

  /** Every in-window record is greeted. */
  lemma UpcomingComplete(es: seq<Entry>, today: Date)
    requires InRange(today) && Upcoming(es, today).Success?
    ensures var out := Upcoming(es, today).value;
      forall i :: 0 <= i < |es| && InWindow(es[i], today) ==>
        exists j :: 0 <= j < |out| && out[j] == GreetingFor(es[i], today)
  {
    UpcomingSelects(es, today);
    WindowIndicesExact(es, today);
    var out, idx := Upcoming(es, today).value, WindowIndices(es, today);
    forall i | 0 <= i < |es| && InWindow(es[i], today)
      ensures exists j :: 0 <= j < |out| && out[j] == GreetingFor(es[i], today)
    {
      var j :| 0 <= j < |idx| && idx[j] == i;
      assert out[j] == GreetingFor(es[i], today);
    }
  }

  /** With distinct names, a greeting names only an in-window record and
      carries that record's congratulation date. */
  lemma UpcomingOnlyInWindow(es: seq<Entry>, today: Date)
    requires InRange(today) && Upcoming(es, today).Success? && DistinctNames(es)
    ensures var out := Upcoming(es, today).value;
      forall i, j :: 0 <= i < |es| && 0 <= j < |out| && out[j].name == es[i].name ==>
        InWindow(es[i], today) && out[j] == GreetingFor(es[i], today)
  {
    UpcomingSelects(es, today);
    var out, idx := Upcoming(es, today).value, WindowIndices(es, today);
    forall i, j | 0 <= i < |es| && 0 <= j < |out| && out[j].name == es[i].name
      ensures InWindow(es[i], today) && out[j] == GreetingFor(es[i], today)
    {
      assert es[idx[j]].name == es[i].name;
    }
  }

  /** With distinct names, no record is greeted twice and the greetings
      follow the records' iteration order. */
  lemma UpcomingInOrder(es: seq<Entry>, today: Date)
    requires InRange(today) && Upcoming(es, today).Success? && DistinctNames(es)
    ensures var out := Upcoming(es, today).value;
      forall j1, j2, i1, i2 ::
        (0 <= j1 < j2 < |out| && 0 <= i1 < |es| && 0 <= i2 < |es|
         && out[j1].name == es[i1].name && out[j2].name == es[i2].name) ==> i1 < i2
  {
    UpcomingSelects(es, today);
    WindowIndicesExact(es, today);
    var out, idx := Upcoming(es, today).value, WindowIndices(es, today);
    forall j1, j2, i1, i2 | 0 <= j1 < j2 < |out| && 0 <= i1 < |es| && 0 <= i2 < |es|
      && out[j1].name == es[i1].name && out[j2].name == es[i2].name
      ensures i1 < i2
    {
      assert es[idx[j1]].name == es[i1].name && es[idx[j2]].name == es[i2].name;
    }
  }

  /** The congratulation date carried by a greeting is a weekday; it is the
      birthday itself when that is a weekday, or the Monday after it, so at
      most nine days after today. */
  lemma GreetingDate(e: Entry, today: Date)
    requires InRange(today) && InWindow(e, today)
    ensures var b := ThisYear(e.birthday.value, today).value;
      var c := ParseDate(GreetingFor(e, today).birthday).value;
      && Weekday(c) < 5
      && (Weekday(b) < 5 ==> c == b)
      && (Weekday(b) >= 5 ==> Weekday(c) == 0 && DayNumber(c) == DayNumber(b) + 7 - Weekday(b))
      && 0 <= DayNumber(c) - DayNumber(today) <= 9
  {
  }

  /** The window does not wrap into next year: a birthday whose month and day
      come before today's in the calendar is not greeted, even when next
      year's date would be a day or two away (30 December and 2 January). */
  lemma NoRollover(e: Entry, today: Date)
    requires InRange(today) && e.birthday.Some?
    requires var b := ParseDate(e.birthday.value).value;
      b.month < today.month || (b.month == today.month && b.day < today.day)
    ensures !InWindow(e, today)
  {
    var t := ThisYear(e.birthday.value, today);
    if t.Some? {
      SameYearOrder(t.value, today);
    }
  }

  /** A book of one record greets, or fails, exactly as that record does. */
  lemma UpcomingSingle(e: Entry, today: Date)
    requires InRange(today)
    ensures Upcoming([e], today) == Visit(e, today)
  {
    var none: seq<Entry> := [];
    assert [e][..0] == none;
    assert Upcoming(none, today) == Success([]);
    if Visit(e, today).Success? {
      assert [] + Visit(e, today).value == Visit(e, today).value;
    }
  }

  // Three records seen on Friday 20 December 2024.

  /** A Wednesday birthday five days ahead is greeted on the day itself. */
  lemma WeekdayBirthdayScenario()
    ensures Visit(Entry("Alice", Some("25-12-1990")), Date(2024, 12, 20))
      == Success([Greeting("Alice", "25-12-2024")])
  {
    var s: string := "25-12-1990";
    assert s[0] == '2' && s[1] == '5' && s[3] == '1' && s[4] == '2';
    assert s[6] == '1' && s[7] == '9' && s[8] == '9' && s[9] == '0';
    assert ParseDate(s) == Some(Date(1990, 12, 25));
    var b := Date(2024, 12, 25);
    assert DayNumber(b) - DayNumber(Date(2024, 12, 20)) == 5;
    assert Weekday(b) == 2;
    assert FormatDate(b) == "25-12-2024";
  }

  /** A Saturday birthday the next day is greeted on Monday 23 December. */
  lemma SaturdayBirthdayScenario()
    ensures Visit(Entry("Bob", Some("21-12-1985")), Date(2024, 12, 20))
      == Success([Greeting("Bob", "23-12-2024")])
  {
    var s: string := "21-12-1985";
    assert s[0] == '2' && s[1] == '1' && s[3] == '1' && s[4] == '2';
    assert s[6] == '1' && s[7] == '9' && s[8] == '8' && s[9] == '5';
    assert ParseDate(s) == Some(Date(1985, 12, 21));
    var b := Date(2024, 12, 21);
    assert DayNumber(b) - DayNumber(Date(2024, 12, 20)) == 1;
    assert Weekday(b) == 5;
    assert AdjustForWeekend(b) == Date(2024, 12, 23) by {
      assert DaysAhead(5, 0) == 2;
      assert AddDays(b, 2) == Date(2024, 12, 23) by {
        assert NextDay(b) == Date(2024, 12, 22);
        assert NextDay(Date(2024, 12, 22)) == Date(2024, 12, 23);
        assert AddDays(Date(2024, 12, 23), 0) == Date(2024, 12, 23);
      }
    }
    assert FormatDate(Date(2024, 12, 23)) == "23-12-2024";
  }

  /** A 2 January birthday is not greeted: it is looked up in 2024 only. */
  lemma NewYearBirthdayScenario()
    ensures Visit(Entry("Carol", Some("02-01-1990")), Date(2024, 12, 20)) == Success([])
  {
    var s: string := "02-01-1990";
    assert s[0] == '0' && s[1] == '2' && s[3] == '0' && s[4] == '1';
    assert s[6] == '1' && s[7] == '9' && s[8] == '9' && s[9] == '0';
    assert ParseDate(s) == Some(Date(1990, 1, 2));
    NoRollover(Entry("Carol", Some(s)), Date(2024, 12, 20));
  }

  /** Alice alone in the book: `Upcoming` greets her as her own visit does. */
  lemma WeekdayBirthdayAlone(e: Entry, today: Date)
    requires e == Entry("Alice", Some("25-12-1990")) && today == Date(2024, 12, 20)
    ensures Upcoming([e], today) == Success([Greeting("Alice", "25-12-2024")])
  {
    WeekdayBirthdayScenario();
    UpcomingSingle(e, today);
  }

  /** Bob alone in the book: `Upcoming` greets him on the Monday. */
  lemma SaturdayBirthdayAlone(e: Entry, today: Date)
    requires e == Entry("Bob", Some("21-12-1985")) && today == Date(2024, 12, 20)
    ensures Upcoming([e], today) == Success([Greeting("Bob", "23-12-2024")])
  {
    SaturdayBirthdayScenario();
    UpcomingSingle(e, today);
  }

  /** Carol alone in the book: `Upcoming` greets no one. */
  lemma NewYearBirthdayAlone(e: Entry, today: Date)
    requires e == Entry("Carol", Some("02-01-1990")) && today == Date(2024, 12, 20)
    ensures Upcoming([e], today) == Success([])
  {
    NewYearBirthdayScenario();
    UpcomingSingle(e, today);
  }
}
