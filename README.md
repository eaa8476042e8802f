# Address book assistant — a verified model of its core

This project models the data core of a console address-book assistant
(`Bot_8.py`). A contact has a name, an ordered list of ten-digit phone numbers
and an optional birthday. The address book stores contacts by name and answers
"whose birthday is coming up?". A birthday that falls on a weekend is
celebrated on the following Monday.

Modules:

- `Base` (`base.dfy`): the error kinds the core raises, plus `Option`,
  `Result` and `Outcome` (success or an error, for operations that return
  nothing).
- `Sequences` (`sequences.dfy`): Python's `list.remove` and the
  "overwrite the first equal element" step of `edit_phone`, stated on
  sequences, with their lemmas.
- `Calendar` (`calendar.dfy`): the parts of Python's `datetime.date` the
  core relies on. It covers valid dates in years 1..9999, comparison,
  `toordinal()`, `weekday()` and adding one day. It also proves that
  comparing dates is comparing ordinals and that 9999-12-31 is a Friday.
- `Fields` (`fields.dfy`): `Phone` and `Birthday` construction and the
  `DD.MM.YYYY` rendering of a birthday. The birthday test is the regular
  expression search `\b\d{2}\.\d{2}\.\d{4}\b` followed by
  `strptime(value, '%d.%m.%Y')`. Both are modelled as written, and a lemma
  shows that together they accept exactly the `DD.MM.YYYY` texts that name a
  real date.
- `Records` (`records.dfy`): `Record` is a class whose methods change its
  phone list and birthday in place.
- `AddressBooks` (`address_book.dfy`): `AddressBook` is a class that keeps
  the stored names in dict insertion order (`keys`) next to the name-to-record
  map (`data`). The upcoming-birthdays query is specified by the function
  `Upcoming` over the records' entries in iteration order. The imperative
  query method is proved equal to it. A reference definition, `Reported`,
  is proved to give the same answer whenever the query succeeds.
- `Handlers` (`handlers.dfy`): the `add` and `change` commands as
  transitions of the book, with the reply each one gives.

"Now" (`datetime.now().date()`) is a parameter `today` wherever the source
reads the clock.

Raising an exception is modelled as returning a `Failure` with one of the
error kinds `InvalidPhone`, `InvalidBirthday`, `DuplicatePhone`,
`PhoneNotFound`, `ReplaceFailed` (the `ValueError` of `date.replace`) or
`DateOverflow` (the `OverflowError` of adding a `timedelta`).

The query can raise. `birthday.replace(year=...)` fails for a 29 February
birthday in a non-leap year. `today + timedelta(days=days)` fails when the end
of the window is not a representable date. The comparison
`today <= d <= today + timedelta(days=days)` is chained, so the end of the
window is computed only when `today <= d`, and the model keeps that order.
One failing record ends the whole query.

Two behaviours of the code are easy to miss. `edit_phone` does not check
the new value against the other phones, so `change` can create a duplicate;
`Sequences.ReplaceFirstDistinct` states exactly when the list stays
duplicate-free (`add_phone`, by contrast, keeps the phones distinct, as
`Records.Record.AddPhone` states). `add_phone` checks for a duplicate before
it validates the format, so a duplicate of a malformed value is reported as a
duplicate.

## Model

| member | source | states |
|---|---|---|
| Fields.IsDigitString | Bot_8.py:22 | `str.isdigit()` holds exactly for a non-empty string of digits |
| Fields.NewPhone | Bot_8.py:20-25 | a phone is accepted exactly when it is ten digits and keeps its value; otherwise the error is `InvalidPhone` |
| Fields.StrptimeDate | Bot_8.py:37 | `strptime('%d.%m.%Y')` yields only real dates and consumes the whole text: 8 to 10 characters, ending in a dot and four digits that are the year |
| Fields.StrptimeTakesShortFields | Bot_8.py:34-37 | `strptime` alone accepts the one-digit text `1.1.2020` and the blank-padded ` 1.01.2020`, and the search (`PatternFound`) refuses both |
| Fields.SearchFindsEmbeddedDate | Bot_8.py:34-35 | the search `re.search(r'\b\d{2}\.\d{2}\.\d{4}\b', …)` (`PatternFound`, `MatchAt`) is not anchored: a `DD.MM.YYYY` text matches at its position inside any text whose neighbouring characters are not word characters |
| Fields.BoundaryRefusesGluedDate | Bot_8.py:34-35 | the `\b` anchors of the search refuse a date glued to a letter (`a01.01.2020`) or to another digit (`01.01.20201`) |
| Fields.BirthdayTextAccepted | Bot_8.py:34-37 | the regex search and `strptime('%d.%m.%Y')` together accept exactly the `DD.MM.YYYY` texts that name a real date, and they parse such a text to the date it spells |
| Fields.ParseBirthday | Bot_8.py:31-44 | a birthday text is accepted exactly when it is `DD.MM.YYYY`, names a real date and that date is not after today; every failure is the single error `InvalidBirthday`; the stored date renders back to the input text |
| Fields.FormatDate | Bot_8.py:46-47 | `strftime('%d.%m.%Y')` gives a `DD.MM.YYYY` text that spells the date back |
| Fields.FormatTextDate | Bot_8.py:46-47 | a `DD.MM.YYYY` text naming a real date is the rendering of that date |
| Fields.FormatThenParse | Bot_8.py:31-47 | rendering a past or present birthday and parsing the text gives the same date back |
| Fields.FutureBirthdayRefused | Bot_8.py:38-39 | a date after today is refused with `InvalidBirthday` |
| Records.Record.constructor | Bot_8.py:51-54 | a new record has the given name, no phones and no birthday |
| Records.Record.FindPhone | Bot_8.py:74-77 | finds a phone exactly when the value is on the record, and returns the position of its first occurrence |
| Records.Record.AddPhone | Bot_8.py:56-59 | a duplicate value is refused first, then a value that is not a phone; otherwise the value is appended; the birthday is untouched and a duplicate-free list stays duplicate-free |
| Records.Record.RemovePhone | Bot_8.py:61-65 | the phones become `list.remove` of the first equal value; an absent value changes nothing |
| Records.Record.EditPhone | Bot_8.py:67-72 | succeeds exactly when the old value is present, and overwrites its first occurrence with the unchecked new value; fails with `PhoneNotFound` otherwise and changes nothing |
| Records.Record.AddBirthday | Bot_8.py:79-80 | sets the birthday exactly when the text parses; a refused text leaves the record as it was; phones are untouched |
| Records.Record.InfoBirthday | Bot_8.py:82-83 | returns the stored birthday or None |
| Sequences.RemoveFirst | Bot_8.py:64 | `list.remove` drops exactly one copy of a present value (the multiset loses one element) and leaves a list without the value unchanged |
| Sequences.RemoveFirstAt | Bot_8.py:61-65 | removing the first occurrence at index `i` splices out that element and keeps the rest in order |
| Sequences.RemoveFirstDistinct | Bot_8.py:61-65 | removal keeps a duplicate-free list duplicate-free and takes the value out completely |
| Sequences.RemoveFirstMembers | Bot_8.py:100-102 | removal keeps every other value on the list |
| Sequences.ReplaceFirst | Bot_8.py:67-72 | overwriting keeps the length, and changes nothing when the old value is absent |
| Sequences.ReplaceFirstAt | Bot_8.py:68-70 | overwriting the first occurrence at index `i` changes that index only |
| Sequences.ReplaceFirstDistinct | Bot_8.py:67-72 | after `edit_phone`, a duplicate-free phone list stays duplicate-free exactly when the new value equals the old one or is not on the list yet |
| Calendar.ToOrdinal | Bot_8.py:111-114 | `toordinal()` of a valid date is a positive day count; its order and its one-day step are stated by `OrdinalOrder` and `NextDay` |
| Calendar.Weekday | Bot_8.py:122-124 | `weekday()` is a day of the week 0..6; `FirstDayIsMonday` and `NextDay` fix it on every date |
| Calendar.FirstDayIsMonday | Bot_8.py:122-124 | 0001-01-01 has ordinal 1 and is a Monday (weekday 0) |
| Calendar.OrdinalOrder | Bot_8.py:111-114 | comparing dates is comparing their ordinals; every valid date has an ordinal in 1..3652059 |
| Calendar.NextDay | Bot_8.py:123-125 | adding one day to any date but the last gives a valid date whose ordinal is one more and whose weekday is the next one |
| Calendar.MaxDateIsFriday | Bot_8.py:120-126 | 9999-12-31 is a Friday, so the weekend shift never leaves the calendar |
| AddressBooks.AdjustForWeekend | Bot_8.py:120-126 | the result falls on a weekday, at most two days later, and every day skipped is a weekend day |
| AddressBooks.ReplaceYear | Bot_8.py:110-112 | `date.replace(year=…)` keeps month and day and sets the year; for a year in 1..9999 it fails with `ReplaceFailed` exactly for 29 February in a non-leap year |
| AddressBooks.NextOccurrence | Bot_8.py:109-112 | the occurrence keeps the month and day, is not before today, and is in this year exactly when this year's date is not past (otherwise next year); it fails exactly when a needed year substitution yields no date |
| AddressBooks.LeapDayOccurrence | Bot_8.py:110-112 | a 29 February birthday has an occurrence exactly when today is in January or February of a leap year |
| AddressBooks.CongratulationOnWeekday | Bot_8.py:109-113 | whenever a celebration date exists, it is a weekday |
| AddressBooks.Visit | Bot_8.py:108-117 | for one record: it fails exactly when a year substitution fails or the window end overflows, with the matching error; it yields a greeting exactly when the adjusted date lies in `[today, today + days]`, and that greeting holds the name and the adjusted date's text |
| AddressBooks.VisitRecord | Bot_8.py:108-117 | the per-record loop body computes `Visit` of the record's name and birthday |
| AddressBooks.Run | Bot_8.py:107-117 | the loop over the records as a fold of one step per record: at most one greeting per record |
| AddressBooks.RunSucceeds | Bot_8.py:107-117 | the loop succeeds exactly when every step succeeds |
| AddressBooks.RunCollects | Bot_8.py:107-117 | a successful loop collects, in order, what each step yields |
| AddressBooks.RunFailureSticks | Bot_8.py:107-118 | once a prefix of the loop has failed, the loop's result is that failure |
| AddressBooks.RunFirstFailure | Bot_8.py:107-118 | a failed loop reports the error of its first failing step, and every step before it succeeds |
| AddressBooks.Upcoming | Bot_8.py:104-118 | the query answers at most one greeting per record |
| AddressBooks.UpcomingSucceeds | Bot_8.py:104-118 | the query succeeds exactly when no record fails |
| AddressBooks.UpcomingStep | Bot_8.py:107-117 | one more loop iteration extends the answer by that record's greeting, keeps it, or turns it into that record's failure |
| AddressBooks.UpcomingNext | Bot_8.py:107-117 | one pass of the loop: a failing record ends the query with its error, a record with no greeting leaves the answer as it was, and a greeting is appended |
| AddressBooks.UpcomingIsReported | Bot_8.py:104-118 | a successful answer is exactly the greetings of the qualifying records, in iteration order |
| AddressBooks.ReportedMembers | Bot_8.py:114-117 | a greeting is in the reference answer exactly when it belongs to a qualifying record |
| AddressBooks.ReportedAreUpcoming | Bot_8.py:108-117 | every greeting answered belongs to a record with a birthday whose celebration date is a weekday in `[today, today + days]`, rendered `DD.MM.YYYY` |
| AddressBooks.NoBirthdayNotReported | Bot_8.py:108 | a record without a birthday never appears in the answer |
| AddressBooks.FailureSticks | Bot_8.py:107-118 | once the loop has failed on a prefix of the records, the query fails with that error |
| AddressBooks.FirstFailureReported | Bot_8.py:107-118 | a failed query reports the error of the first record that fails |
| AddressBooks.LeapDayBirthdayFailsQuery | Bot_8.py:110-112 | any 29 February birthday on record makes the whole query fail unless today is in January or February of a leap year |
| AddressBooks.WednesdayBirthdayReported | Bot_8.py:104-118 | a birthday on Wednesday 12 June 2024, queried on 10 June with a 7-day window, is answered as `12.06.2024` |
| AddressBooks.SaturdayBirthdayVisit | Bot_8.py:108-117 | the record with a birthday on Saturday 15 June 2024, visited on 10 June with a 7-day window, yields the greeting dated `17.06.2024` |
| AddressBooks.SaturdayBirthdayMovedToMonday | Bot_8.py:113-117 | a birthday on Saturday 15 June 2024, queried on 10 June with a 7-day window, is answered as Monday `17.06.2024` |
| AddressBooks.AddressBook.constructor | Bot_8.py:91 | a new book is empty |
| AddressBooks.AddressBook.AddRecord | Bot_8.py:92-95 | the record is stored under its name, replacing any record stored there; a new name goes to the end of the iteration order and a known one keeps its place; the book stays well-formed |
| AddressBooks.AddressBook.Find | Bot_8.py:97-98 | returns the record stored under the name, and null exactly when there is none |
| AddressBooks.AddressBook.Delete | Bot_8.py:100-102 | removes the name and its record and keeps the order of the others; an absent name changes nothing |
| AddressBooks.AddressBook.GetUpcomingBirthdays | Bot_8.py:104-118 | the loop over the records in iteration order computes `Upcoming` of the book's entries: the greetings in order, or the first error raised |
| Handlers.AddContact | Bot_8.py:144-164 | replies that both arguments are needed, rejects a bad phone, adds a new contact with that phone, rejects a duplicate phone, or appends the phone to the existing contact; the book changes exactly as the reply says and stays well-formed |
| Handlers.ChangeContact | Bot_8.py:168-182 | rejects a bad phone, reports an unknown name or a contact without phones, or overwrites the contact's first phone; nothing else in the book changes |

## Left out

- The command loop, `parse_input`, the `hello`, `phone`, `all`, `add-birthday`, `show-birthday` and `birthdays` handlers, and the message texts: they only route input and format output. `Handlers.Reply` names which message a handler gives.
- `save_data` and `load_data`: pickling to a file is I/O.
- The `input_error` decorator: the modelled handlers catch their own `ValueError`s, and none of the modelled paths raises `KeyError`, `IndexError` or `TypeError`.
- `__str__` of `Field`, `Phone` and `Record`: they only render. The birthday rendering is modelled as `Fields.FormatDate`.
- The `isinstance` checks in `add_record` and `get_upcoming_birthdays`: the types of the model admit only records.
- `datetime.now()`: it is the parameter `today`.
- Unicode digits and word characters: `str.isdigit`, `\d` and `\w` are modelled on ASCII only.
- `strftime('%Y')` for years below 1000 depends on the platform. It is modelled as four digits with zero padding.
- Phone objects are modelled by their values. `edit_phone` writes through the found object, which is the same as overwriting that position of the list, and no phone object is shared outside its record.
- The separate `timedelta` range limit is not modelled: any `days` beyond it already puts the window end outside the calendar, and that is `DateOverflow` in the model.
- AddressBooks.Run: its own contract states only the length bound. What the loop computes is stated by `RunSucceeds`, `RunCollects`, `RunFailureSticks` and `RunFirstFailure`.
- AddressBooks.Upcoming: its own contract states only the length bound. What it computes is stated by `UpcomingSucceeds`, `UpcomingIsReported`, `ReportedAreUpcoming` and `FirstFailureReported`.
