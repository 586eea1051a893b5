# Address book — a verified model

This project models, in Dafny, the logic of a small command-line address
book written in Python (`functions.py`). The Python program stores contacts
(a name, an ordered list of phone numbers, an optional birthday), validates
every field when it is set, keeps the contacts in a name-keyed book that
iterates in insertion order, and lists the contacts to congratulate in the
coming week, moving a Saturday or Sunday to the following Monday.

Layout, one module per file:

- `wrappers.dfy` (`Wrappers`): `Option`, `Result` and `Outcome`, used in
  place of the source's `None` returns and raised `ValueError`s.
- `digits.dfy` (`Digits`): ASCII digit characters.
- `calendar.dfy` (`Calendar`): the parts of Python's `datetime.date` the
  program uses, modelled on integers. It covers the proleptic Gregorian
  calendar from year 1 to 9999. The day number (`toordinal`) gives date
  subtraction and `weekday()`. Also here: adding days, `replace(year=...)`,
  and the `DD-MM-YYYY` text form read by `strptime` and written by
  `strftime`.
- `fields.dfy` (`Fields`): `Name`, `Phone` and `Birthday` as subset types of
  `string`, with the smart constructors `MakeName`, `MakePhone` and
  `MakeBirthday`, and the `Error` enumeration. Because a phone is a value of
  type `Phone`, "every stored phone is ten digits" holds by typing.
- `sequences.dfy` (`Sequences`): first-occurrence search and removal by
  index. These are what the phone loops and `list.remove` do.
- `record.dfy` (`Records`): class `Record`. Its `name` is a constant field.
  Its `phones` and `birthday` are updated in place by the methods, as in the
  source.
- `birthdays.dfy` (`Birthdays`): `find_next_weekday`, `adjust_for_weekend`
  and the upcoming-birthday computation as pure functions over the records in
  iteration order (`Upcoming`), with the lemmas about the window, the order
  and the congratulation date. `Upcoming` carries no contract of its own: the
  `Upcoming...` and `WindowIndices...` lemmas below state what it returns.
- `address_book.dfy` (`Book`): class `AddressBook`. It holds the `data` map
  and the map's insertion order `order`. Its invariant `Valid()` says that
  `order` lists each key exactly once and that every record is stored under
  its own name. `UpcomingBirthdays` is the source's loop, proved equal to
  `Upcoming` over the book's records.
- `commands.dfy` (`Commands`): the `add_contact`, `change_contact` and
  `add_birthday` handlers over the book.

Choices a reader should know about:

- Today's date is a parameter of `UpcomingBirthdays` instead of
  `datetime.now()`.
- `get_upcoming_birthdays` calls `replace(year=today.year)` on every stored
  birthday, before the window test (functions.py:100). For a 29 February
  birthday in a common year this raises, and the call ends with that error.
  The model returns `Failure(LeapDayInCommonYear)`. `UpcomingFailsIff`
  proves that this happens exactly when some record has such a birthday.
- The window does not wrap around the new year. A birthday whose month and
  day come before today's is looked up in today's year only, so it is never
  greeted (`NoRollover`). This is the source's behaviour and is kept.
- In the test `if not datetime.strptime(...).date()` (functions.py:26) the
  condition can never be true, because a date is always truthy, so the raise
  at functions.py:27 is unreachable. A birthday is rejected only when parsing
  itself fails. `MakeBirthday` says which texts are accepted.
- `add_contact` stores a new record before it validates the phone
  (functions.py:147-151). A new name with a bad phone therefore returns an
  error but stays in the book with no phones. `AddContact` states this.
- `find_phone` validates its argument first (functions.py:56). An ill-formed
  number is an error, not "not found".
- Date addition in Python raises `OverflowError` past 31 December 9999. The
  model leaves that error out because it cannot happen here.
  `CongratulationInRange` proves that moving a birthday off the weekend stays
  in range: 30 and 31 December 9999 are a Thursday and a Friday.

## Model

| member | source | states |
|---|---|---|
| `Fields.MakeName` | functions.py:12-16 | a name is accepted exactly when it is non-empty, and kept unchanged; otherwise `EmptyName` |
| `Fields.MakePhone` | functions.py:18-22 | a phone is accepted exactly when it has length 10 and every character is an ASCII digit, and kept unchanged; otherwise `InvalidPhone` |
| `Fields.MakeBirthday` | functions.py:24-28 | a birthday text is accepted exactly when it is the `DD-MM-YYYY` form of some date in years 1..9999, and kept as given; otherwise `InvalidBirthday` |
| `Calendar.ParseFormat` | functions.py:99-106 | formatting a date as `DD-MM-YYYY` and parsing it back gives the same date |
| `Calendar.FormatParse` | functions.py:26 | every text the parser accepts is exactly the formatting of the date it denotes |
| `Calendar.ParseAcceptsFormatted` | functions.py:26 | the parser accepts exactly the formatted dates in range |
| `Calendar.ReplaceYear` | functions.py:100 | moving a date into another year fails exactly for 29 February moved into a common year; otherwise only the year changes |
| `Calendar.ParseDate` | functions.py:26 | `strptime` with `%d-%m-%Y`: every accepted text denotes a real date in years 1..9999 (and, by `ParseAcceptsFormatted`, exactly the formatted dates are accepted) |
| `Calendar.FormatDate` | functions.py:106 | `strftime` with `%d-%m-%Y`: the text always has the `DD-MM-YYYY` shape (and parses back to the date, `ParseFormat`) |
| `Calendar.Weekday` | functions.py:85-91 | `weekday()`: always 0 (Monday) to 6 (Sunday) |
| `Calendar.DayInYear` | functions.py:101 | `toordinal()` as `DayNumber`: a date's day number lies after every day of the earlier years and within the 365 or 366 days of its own year |
| `Calendar.NextDay` | functions.py:88 | the next calendar day is a valid date one day number later, and the year changes only after 31 December |
| `Calendar.AddDays` | functions.py:88 | adding `n` days gives a valid date whose day number is `n` larger |
| `Calendar.WeekdayAfter` | functions.py:85-88 | `n` days later the weekday has advanced by `n` modulo 7 |
| `Calendar.SameYearOrder` | functions.py:101 | within a year the day number increases with (month, day), so a date earlier in the year is in the past |
| `Sequences.IndexOf` | functions.py:49-51 | the index found is that of the first occurrence, and it is in range exactly when the value occurs |
| `Sequences.RemoveAt` | functions.py:43 | removing one index shortens the list by one, keeps the elements before and after it in order, and removes exactly one copy of that element |
| `Sequences.RemoveAtDistinct` | functions.py:74-76 | removing an element of a list without repeats keeps it without repeats, and keeps every other value |
| `Records.Record.constructor` | functions.py:31-34 | a new record has the given name, no phones and no birthday |
| `Records.Record.AddPhone` | functions.py:36-38 | a valid phone is appended at the end and the earlier phones are unchanged; an invalid one fails and nothing changes |
| `Records.Record.RemovePhone` | functions.py:40-44 | only the first phone equal to the value is removed; when none is equal the result is `PhoneNotFound` and nothing changes |
| `Records.Record.EditPhone` | functions.py:46-53 | both numbers are validated first; then only the first phone equal to the old one is replaced, and the length and all other phones are kept; with no match the result is `PhoneNotFound` and nothing changes |
| `Records.Record.FindPhone` | functions.py:55-60 | an invalid number is an error; otherwise the phone is returned exactly when it is in the list |
| `Records.Record.AddBirthday` | functions.py:66-67 | a valid text sets or overwrites the birthday; an invalid one fails and nothing changes |
| `Book.AddressBook.constructor` | functions.py:70 | a new book is empty |
| `Book.AddressBook.Find` | functions.py:80-81 | a record is found exactly when the name is a key, and it is the record stored under that name |
| `Book.AddressBook.AddRecord` | functions.py:71-72 | after adding, the book finds the record under its name and every other name finds what it found before; a new name goes to the end of the iteration order, an existing name keeps its place |
| `Book.AddressBook.Delete` | functions.py:74-78 | a present name is removed from the map and from the iteration order, and nothing else changes; an absent name gives `ContactNotFound` and nothing changes |
| `Book.AddressBook.EntriesHaveDistinctNames` | functions.py:72 | the records are visited under distinct names, because each is stored under its own name |
| `Book.AddressBook.UpcomingBirthdays` | functions.py:83-107 | the loop over the records returns exactly the greetings, or the error, of `Upcoming` over the records in iteration order; the `UpcomingOfBook...` lemmas below restate that result over the book's contacts |
| `Book.VisitRecord` | functions.py:98-106 | one loop iteration re-parses the birthday, moves it into today's year and greets it when it is 0 to 7 days ahead, as `Visit` says |
| `Book.AddressBook.Entries` | functions.py:97 | `self.data.values()`: one entry per key, in insertion order, each the record stored under that key, and every contact appears at the position of its key |
| `Book.AddressBook.UpcomingOfBookFails` | functions.py:97-100 | `UpcomingBirthdays` fails exactly when some contact of the book has 29 February as birthday and today's year is common |
| `Book.AddressBook.UpcomingOfBookComplete` | functions.py:97-106 | when `UpcomingBirthdays` succeeds, every contact whose birthday this year is 0 to 7 days ahead is greeted, with its adjusted date |
| `Book.AddressBook.UpcomingOfBookSound` | functions.py:101-106 | when `UpcomingBirthdays` succeeds, every greeting names a contact of the book whose birthday this year is 0 to 7 days ahead, and carries that contact's adjusted date |
| `Book.AddressBook.UpcomingOfBookOrder` | functions.py:97-106 | when `UpcomingBirthdays` succeeds, the greetings follow the insertion order of their contacts, so no contact is greeted twice |
| `Book.EntriesOf` | functions.py:97 | the records are visited in the order of the keys, with their own names and birthdays |
| `Birthdays.DaysAhead` | functions.py:85-87 | the offset is 1 to 7 days, lands on the target weekday, and no smaller positive offset does |
| `Birthdays.FindNextWeekday` | functions.py:84-88 | the result is 1 to 7 days after the start, falls on the requested weekday, and is the first such date |
| `Birthdays.AdjustForWeekend` | functions.py:90-93 | the result is never a Saturday or Sunday; a weekday is kept; a Saturday moves 2 days and a Sunday 1 day, to the Monday after |
| `Birthdays.CongratulationDate` | functions.py:102-105 | the extra weekend test in the loop gives the same date as always calling `AdjustForWeekend` |
| `Birthdays.CongratulationInRange` | functions.py:88 | moving a birthday off the weekend never leaves years 1..9999, so date addition cannot overflow |
| `Birthdays.GreetingFor` | functions.py:106 | a greeting carries the record's name and a text that parses back to the adjusted congratulation date |
| `Birthdays.Visit` | functions.py:98-100 | one record fails exactly when its birthday cannot be moved into today's year, and the error is `LeapDayInCommonYear` |
| `Birthdays.VisitGreets` | functions.py:101-106 | a record that does not fail yields one greeting when it is in the window and none when it is not |
| `Birthdays.WindowIndices` | functions.py:101 | every listed position is a record whose this-year birthday is 0 to 7 days ahead |
| `Birthdays.WindowIndicesExact` | functions.py:97-101 | the listed positions are increasing and include every in-window record |
| `Birthdays.UpcomingLength` | functions.py:97-106 | `Upcoming` (the value-level `get_upcoming_birthdays`) yields at most one greeting per record |
| `Birthdays.UpcomingFailsIff` | functions.py:99-100 | the computation fails, with `LeapDayInCommonYear`, exactly when some record has 29 February as birthday and today's year is common |
| `Birthdays.UpcomingSelects` | functions.py:96-106 | the greetings are, position by position, the greetings of the in-window records in iteration order |
| `Birthdays.UpcomingSound` | functions.py:101-106 | every greeting comes from a record whose this-year birthday is 0 to 7 days after today |
| `Birthdays.UpcomingComplete` | functions.py:97-106 | every record whose this-year birthday is 0 to 7 days ahead is greeted |
| `Birthdays.UpcomingOnlyInWindow` | functions.py:101-106 | with distinct names, a greeting names only an in-window record and carries that record's date |
| `Birthdays.UpcomingInOrder` | functions.py:97-106 | with distinct names, no record is greeted twice, and the greetings follow the book's iteration order |
| `Birthdays.GreetingDate` | functions.py:101-106 | the congratulation date is a weekday: the birthday itself when it is a weekday, otherwise the Monday after it; it is 0 to 9 days after today |
| `Birthdays.NoRollover` | functions.py:100-101 | a birthday whose month and day come before today's is never greeted, even when next year's date is near |
| `Birthdays.WeekdayBirthdayScenario` | functions.py:101-106 | on Friday 20-12-2024 a 25 December birthday is greeted as `25-12-2024` |
| `Birthdays.SaturdayBirthdayScenario` | functions.py:102-106 | on Friday 20-12-2024 a 21 December birthday, a Saturday, is greeted as `23-12-2024` |
| `Birthdays.NewYearBirthdayScenario` | functions.py:100-101 | on Friday 20-12-2024 a 2 January birthday is not greeted |
| `Birthdays.UpcomingSingle` | functions.py:96-107 | a book of one record gives exactly that record's visit: its greeting list or its error |
| `Birthdays.WeekdayBirthdayAlone` | functions.py:96-107 | with only the 25 December record in the book, the whole result on Friday 20-12-2024 is the one greeting `25-12-2024` |
| `Birthdays.SaturdayBirthdayAlone` | functions.py:96-107 | with only the 21 December record in the book, the whole result on Friday 20-12-2024 is the one greeting `23-12-2024` |
| `Birthdays.NewYearBirthdayAlone` | functions.py:96-107 | with only the 2 January record in the book, the result on Friday 20-12-2024 is the empty list |
| `Commands.AddContact` | functions.py:142-152 | an unknown name gets a new record at the end of the book, even when its phone is then rejected; a known name keeps its record and place; a non-empty valid phone is appended, an invalid one is `InvalidPhone`; an empty name is `EmptyName` with nothing changed |
| `Commands.ChangeContact` | functions.py:155-162 | an unknown name is `ContactNotFound`; otherwise the record's phones change exactly as `EditPhone` says |
| `Commands.AddBirthdayTo` | functions.py:178-186 | an unknown name is `ContactNotFound`; otherwise the record's birthday changes exactly as `AddBirthday` says |

## Left out

- Persistence (`__getstate__`, `__setstate__`, `save_data`, `load_data`): pickling and file I/O go through a foreign library and the file system.
- `datetime.now()`: the clock is replaced by the `today` parameter.
- `strptime` leniency: Python also accepts a one-digit day or month (`1-1-2000`) and a space before a one-digit day. Its patterns for `%Y` and the second digit of `%d` use `\d`, which also matches non-ASCII decimal digits: Python accepts `01-01-٢٠٠٠` (Arabic-Indic digits). The model accepts only the two-digit, ASCII-digit `DD-MM-YYYY` form, so `MakeBirthday` and `ParseDate` reject these texts.
- `str.isdigit` on non-ASCII digits (for example superscripts): the model treats only `0`..`9` as digits.
- `FormatDate`: always writes the year with four digits. The platform `strftime` may leave years below 1000 unpadded; today's year is never that small.
- `__str__` of `Field`, `Record` and `AddressBook`, `parse_input`, the `input_error` decorator, `phone_number`, `all_numbers`, `show_birthday`, `birthdays`, and all user-message strings: these are presentation only. Errors are returned as `Error` values instead of messages.
- Argument-count errors from unpacking `args` in the handlers: the command-line splitting is not modelled, so the handlers take their fields as separate parameters.
- The `Field` base class: each field is a validated string.
- `Records.Record.FindPhone`: returns the matching phone value, not the Python `Phone` object. Object identity of phones is not modelled, and equal values are interchangeable.
- `Birthdays.FindNextWeekday`: takes its weekday argument in 0..6, the range of `weekday()`. The source only calls it with 0.
- `Calendar.AddDays`: adds a non-negative number of days only. The source never adds a negative one.
- `Book.AddressBook.Find`: requires the book invariant `Valid()`, which every book satisfies.
- `OverflowError` of date arithmetic: proved not to arise (`CongratulationInRange`), so it has no error value.
