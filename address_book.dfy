/** The address book: records keyed by contact name, iterated in insertion
    order as a Python `dict` is. */
module Book {
  import opened Wrappers
  import opened Calendar
  import opened Fields
  import opened Sequences
  import opened Records
  import opened Birthdays

  /** The records under `keys`, in that order, as the birthday loop sees them. */
  function EntriesOf(keys: seq<string>, data: map<string, Record>): (es: seq<Entry>)
    requires forall k :: k in keys ==> k in data
    reads data.Values
    ensures |es| == |keys|
    ensures forall i :: 0 <= i < |keys| ==> es[i] == Entry(data[keys[i]].name, data[keys[i]].birthday)
    decreases |keys|
  {
    if keys == [] then []
    else
      var last := data[keys[|keys| - 1]];
      EntriesOf(keys[..|keys| - 1], data) + [Entry(last.name, last.birthday)]
  }

  /** The statements of the loop body in `get_upcoming_birthdays` for one
      record: re-parse its birthday, move it into today's year (which raises
      for 29 February in a common year), and greet it if it is 0 to 7 days
      ahead, moving a weekend date to Monday. `Visit` is its specification. */
  method VisitRecord(record: Record, today: Date) returns (res: Result<seq<Greeting>, Error>)
    requires InRange(today)
    ensures res == Visit(Entry(record.name, record.birthday), today)
  {
    if record.birthday.None? {
      return Success([]);
    }
    var birthday := ParseDate(record.birthday.value).value;
    var thisYear := ReplaceYear(birthday, today.year);
    if thisYear.None? {
      return Failure(LeapDayInCommonYear);
    }
    var b := thisYear.value;
    if 0 <= DayNumber(b) - DayNumber(today) <= 7 {
      var congDate := if Weekday(b) == 5 || Weekday(b) == 6 then AdjustForWeekend(b) else b;
      CongratulationInRange(b);
      return Success([Greeting(record.name, FormatDate(congDate))]);
    }
    return Success([]);
  }

  /** How the greetings of the first `i + 1` records follow from those of
      the first `i`: the next record's visit is appended, or its failure is the
      failure of the whole run. */
  lemma UpcomingStep(keys: seq<string>, data: map<string, Record>, i: nat, today: Date)
    requires forall k :: k in keys ==> k in data
    requires i < |keys| && InRange(today) && Upcoming(EntriesOf(keys[..i], data), today).Success?
    ensures var visit := Visit(Entry(data[keys[i]].name, data[keys[i]].birthday), today);
      && (visit.Success? ==>
            Upcoming(EntriesOf(keys[..i + 1], data), today)
            == Success(Upcoming(EntriesOf(keys[..i], data), today).value + visit.value))
      && (visit.Failure? ==> Upcoming(EntriesOf(keys, data), today) == visit)
  {
    var entry := Entry(data[keys[i]].name, data[keys[i]].birthday);
    var done := EntriesOf(keys[..i], data);
    assert keys[..i + 1][..i] == keys[..i];
    assert EntriesOf(keys[..i + 1], data) == done + [entry];
    if Visit(entry, today).Success? {
      UpcomingAppend(done, entry, today);
    } else {
      var all := EntriesOf(keys, data);
      assert LeapDayClash(all[i], today);
      UpcomingFailsIff(all, today);
    }
  }

  class AddressBook {
    /** `self.data`: contact name to record. */
    var data: map<string, Record>
    /** The keys of `data` in insertion order. */
    var order: seq<string>

    ghost predicate Valid()
      reads this
    {
      && (forall k :: k in data <==> k in order)
      && Distinct(order)
      && (forall k :: k in data ==> data[k].name == k)
    }

    /** `AddressBook()`: empty. */
    constructor ()
      ensures Valid() && data == map[] && order == []
    {
      data := map[];
      order := [];
    }

    /** `find(name)`: the record stored under `name`, if any. */
    function Find(name: string): (r: Option<Record>)
      requires Valid()
      reads this
      ensures r.Some? <==> name in order
      ensures r.Some? ==> r.value == data[name] && r.value.name == name
    {
      if name in data then Some(data[name]) else None
    }

    /** `add_record(record)`: store `record` under its name, replacing any
        record of that name in place and otherwise appending the name to the
        iteration order. */
    method AddRecord(record: Record)
      requires Valid()
      modifies this
      ensures Valid()
      ensures data == old(data)[record.name := record]
      ensures order == if record.name in old(data) then old(order) else old(order) + [record.name]
      ensures Find(record.name) == Some(record)
      ensures forall k :: k != record.name ==> Find(k) == old(Find(k))
    {
      if record.name !in data {
        order := order + [record.name];
      }
      data := data[record.name := record];
    }

    /** `delete(name)`: remove that contact, or report that there is none. */
    method Delete(name: string) returns (res: Outcome<Error>)
      requires Valid()
      modifies this
      ensures Valid()
      ensures name in old(data) ==>
        res == Pass && data == old(data) - {name}
        && order == RemoveAt(old(order), IndexOf(old(order), name))
      ensures name !in old(data) ==>
        res == Fail(ContactNotFound) && data == old(data) && order == old(order)
      ensures forall k :: k != name ==> Find(k) == old(Find(k))
    {
      if name in data {
        var k := IndexOf(order, name);
        RemoveAtDistinct(order, k);
        order := RemoveAt(order, k);
        data := data - {name};
        res := Pass;
      } else {
        res := Fail(ContactNotFound);
      }
    }

    /** The records in iteration order. */
    function Entries(): (es: seq<Entry>)
      requires Valid()
      reads this, data.Values
      ensures |es| == |order|
      ensures forall i :: 0 <= i < |order| ==> es[i] == EntryOf(order[i])
      ensures forall k :: k in data ==> es[IndexOf(order, k)] == EntryOf(k)
    {
      EntriesOf(order, data)
    }

    /** The records are visited under their own keys, so no two share a name
        and the lemmas on `Upcoming` that ask for distinct names apply. */
    lemma EntriesHaveDistinctNames()
      requires Valid()
      ensures DistinctNames(Entries())
    {
      var es := Entries();
      forall i, j | 0 <= i < j < |es| ensures es[i].name != es[j].name {
        assert es[i].name == order[i] && es[j].name == order[j];
      }
    }

    /** The record stored under `name`, as the birthday loop sees it. */
    function EntryOf(name: string): (e: Entry)
      requires name in data
      reads this, data.Values
    {
      Entry(data[name].name, data[name].birthday)
    }

    /** `UpcomingBirthdays` fails exactly when some contact has a 29 February
        birthday and today's year is common. */
    lemma UpcomingOfBookFails(today: Date)
      requires Valid() && InRange(today)
      ensures Upcoming(Entries(), today).Failure? <==>
        exists k :: k in data && LeapDayClash(EntryOf(k), today)
    {
      var es := Entries();
      UpcomingFailsIff(es, today);
      if exists k :: k in data && LeapDayClash(EntryOf(k), today) {
        var k :| k in data && LeapDayClash(EntryOf(k), today);
        assert LeapDayClash(es[IndexOf(order, k)], today);
      }
    }

    /** Every contact whose birthday this year is 0 to 7 days ahead is greeted. */
    lemma UpcomingOfBookComplete(today: Date)
      requires Valid() && InRange(today) && Upcoming(Entries(), today).Success?
      ensures var out := Upcoming(Entries(), today).value;
        forall k :: k in data && InWindow(EntryOf(k), today) ==>
          exists j :: 0 <= j < |out| && out[j] == GreetingFor(EntryOf(k), today)
    {
      var es := Entries();
      UpcomingComplete(es, today);
      forall k | k in data && InWindow(EntryOf(k), today)
        ensures exists j :: (0 <= j < |Upcoming(es, today).value|
          && Upcoming(es, today).value[j] == GreetingFor(EntryOf(k), today))
      {
        assert InWindow(es[IndexOf(order, k)], today);
      }
    }

    /** Every greeting is for a contact of the book whose birthday this year is
        0 to 7 days ahead, and carries that contact's congratulation date. */
    lemma UpcomingOfBookSound(today: Date)
      requires Valid() && InRange(today) && Upcoming(Entries(), today).Success?
      ensures var out := Upcoming(Entries(), today).value;
        forall j :: 0 <= j < |out| ==>
          out[j].name in data && InWindow(EntryOf(out[j].name), today)
          && out[j] == GreetingFor(EntryOf(out[j].name), today)
    {
      var es := Entries();
      var out := Upcoming(es, today).value;
      UpcomingSelects(es, today);
      var idx := WindowIndices(es, today);
      forall j | 0 <= j < |out|
        ensures out[j].name in data && InWindow(EntryOf(out[j].name), today)
          && out[j] == GreetingFor(EntryOf(out[j].name), today)
      {
        GreetingOfEntry(idx[j], today);
      }
    }

    /** The greeting of the record at position `i` names that record's key. */
    lemma GreetingOfEntry(i: int, today: Date)
      requires Valid() && InRange(today) && 0 <= i < |order| && InWindow(Entries()[i], today)
      ensures order[i] in data && Entries()[i] == EntryOf(order[i])
      ensures GreetingFor(Entries()[i], today).name == order[i]
    {
    }

    /** The greetings follow the insertion order of their contacts, so no
        contact is greeted twice. */
    lemma UpcomingOfBookOrder(today: Date)
      requires Valid() && InRange(today) && Upcoming(Entries(), today).Success?
      ensures var out := Upcoming(Entries(), today).value;
        forall j1, j2 :: 0 <= j1 < j2 < |out| ==>
          out[j1].name in data && out[j2].name in data
          && IndexOf(order, out[j1].name) < IndexOf(order, out[j2].name)
    {
      var es := Entries();
      var out := Upcoming(es, today).value;
      EntriesHaveDistinctNames();
      UpcomingOfBookSound(today);
      UpcomingInOrder(es, today);
      forall j1, j2 | 0 <= j1 < j2 < |out|
        ensures out[j1].name in data && out[j2].name in data
          && IndexOf(order, out[j1].name) < IndexOf(order, out[j2].name)
      {
        var i1, i2 := IndexOf(order, out[j1].name), IndexOf(order, out[j2].name);
        assert out[j1].name == es[i1].name && out[j2].name == es[i2].name;
      }
    }

    /** `get_upcoming_birthdays()` with today's date given: one greeting per
        record whose birthday in today's year is 0 to 7 days ahead, weekend
        dates moved to Monday, in iteration order; a 29 February birthday in a
        common year stops the loop with an error. The `UpcomingOfBook...`
        lemmas above state what that result is in terms of the book's
        contacts. */
    method UpcomingBirthdays(today: Date) returns (res: Result<seq<Greeting>, Error>)
      requires Valid() && InRange(today)
      ensures res == Upcoming(Entries(), today)
    {
      var out: seq<Greeting> := [];
      var i := 0;
      while i < |order|
        invariant 0 <= i <= |order|
        invariant Upcoming(EntriesOf(order[..i], data), today) == Success(out)
      {
        var record := data[order[i]];
        var step := VisitRecord(record, today);
        UpcomingStep(order, data, i, today);
        if step.Failure? {
          return step;
        }
        out := out + step.value;
        i := i + 1;
      }
      assert order[..i] == order;
      return Success(out);
    }
  }
}
