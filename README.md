# Contact book assistant: a verified model

This project models the core of a command-line contact book written in Python (`main.py`).
The book keeps contacts by name. Each contact has an ordered list of ten-digit phone numbers
and an optional birthday written `DD.MM.YYYY`. The book can list the contacts whose next
birthday falls within a given number of days, with a weekend birthday moved to the following
Monday.

The model has one module per concern:

- `Results` (`results.dfy`): the `Option`, `Result` and `Outcome` types. They stand for Python's
  `None` and for the `ValueError` a call may raise.
- `Calendar` (`calendar.dfy`): the proleptic Gregorian calendar of `datetime.date`.
  - Day numbers are `date.toordinal()`.
  - Weekdays are `date.weekday()`, with Monday as 0.
  - Dates compare field by field.
  - Years run from 1 to 9999.
- `DateText` (`date_text.dfy`): the pattern `%d.%m.%Y`, read strictly and written with leading
  zeros. Both round trips are proved.
- `Fields` (`fields.dfy`): the `Phone` and `Birthday` fields as smart constructors.
  - Each either returns the field holding the raw text unchanged, or the message of the
    `ValueError` the source raises.
  - Subset types make every stored field satisfy its rule.
- `Records` (`record.dfy`): the class `Record`. Its `phones` and `birthday` fields are updated
  in place by its methods.
- `Birthdays` (`birthdays.dfy`): the birthday window as pure functions.
  - The weekday search and the weekend shift.
  - `date.replace(year=...)` and its errors.
  - The next occurrence of a birthday.
  - `Upcoming`, the specification of the whole window. It is proved sound and complete, and
    its failures are characterised.
- `Book` (`address_book.dfy`): the class `AddressBook`.
  - A map of records together with the sequence of its keys, since a Python `dict` iterates in
    insertion order.
  - `GetUpcomingBirthdays` is the loop of `get_upcoming_birthdays`, proved equal to `Upcoming`
    over the records in insertion order.
- `Commands` (`commands.dfy`): the state logic of the `add_contact` and `change_contact`
  handlers.

`date.today()` becomes the parameter `today`, and the window length `days` is a parameter as in
the source. Every path that raises `ValueError` in the source is a `Failure`/`Fail` value here,
and it carries the same message.

Behaviour worth knowing, all of it from `main.py`:

- `add_contact` files a new record before it validates the phone. An invalid phone therefore
  leaves a new record with no phones in the book, and the handler returns the phone error.
- `get_upcoming_birthdays` can fail. It does so for a 29 February birthday in a year that is
  not a leap year, and for a birthday that has already passed in year 9999.
- `edit_phone` validates the new number only once it has found the old one.
- The error texts are: "The number must contain 10 digits." and
  "Invalid date format. Use DD.MM.YYYY".

## Model

| member | source | states |
|---|---|---|
| Fields.NewPhone | main.py:19-26 | Succeeds exactly when the text has ten characters, all ASCII digits. It then stores the text unchanged; otherwise it fails with "The number must contain 10 digits." |
| Fields.NewBirthday | main.py:115-121 | Succeeds exactly when the strict `%d.%m.%Y` parser accepts the text. It then stores the text unchanged; otherwise it fails with "Invalid date format. Use DD.MM.YYYY". |
| Fields.NewBirthdayAcceptsDateTexts | main.py:115-121 | A birthday text is accepted exactly when it is the `DD.MM.YYYY` text of some date that Python can represent. |
| Fields.BirthDate | main.py:99 | The date read from a stored birthday is representable, and writing it back gives the stored text. |
| DateText.ParseDate | main.py:99 | Every date the parser returns is a real calendar date in years 1..9999. |
| DateText.FormatDate | main.py:107 | The text has the `DD.MM.YYYY` shape, and parsing it gives back the date it was made from. |
| DateText.FormatParse | main.py:99 | Every text the parser accepts is exactly the text of the date it denotes. |
| DateText.DigitsValueOfPadded | main.py:107 | Reading back a zero-padded number gives the number when it fits the width. |
| DateText.PaddedOfDigitsValue | main.py:99 | Zero-padding the value of a digit string to its own length gives the string back. |
| DateText.DecimalText | main.py:100-102 | The decimal text of the year in the out-of-range error: digits, with a minus sign for negatives, reading back as the number. |
| Calendar.DaysInMonth | main.py:100 | Every month has 28 to 31 days. |
| Calendar.DaysInYear | main.py:100 | Every year has 365 or 366 days. |
| Calendar.DaysBeforeYearClosedForm | main.py:104 | Counting days year by year agrees with the closed form `365(y-1) + (y-1)/4 - (y-1)/100 + (y-1)/400` behind `date.toordinal`. |
| Calendar.DayOfYearBounds | main.py:104 | A date's day number lies inside its year's span of day numbers. |
| Calendar.YearsAreOrdered | main.py:101 | An earlier year ends before a later year begins. |
| Calendar.BeforeIffSmallerDayNumber | main.py:101 | Comparing dates field by field agrees with comparing day numbers; equal dates are exactly those with equal day numbers. |
| Calendar.NextDay | main.py:85 | The next day is a calendar date whose day number is one more. |
| Calendar.AddDays | main.py:85 | `date + timedelta(days=n)` is a calendar date whose day number is `n` more. |
| Calendar.WeekdayOf | main.py:82 | A weekday number lies in 0..6. |
| Calendar.LastDayIsFriday | main.py:88-91 | 31 December 9999 is ordinal 3652059 and falls on a Friday. |
| Birthdays.FindNextWeekday | main.py:81-85 | The result lies 1..7 days after the start and falls on the requested weekday. It is the first day after the start to do so. |
| Birthdays.DaysAheadReachesWeekday | main.py:82-85 | On ordinals, the computed step reaches the target weekday within 1..7 days, and passes no earlier day with that weekday. |
| Birthdays.WeekendShift | main.py:88-91 | On ordinals, the next Monday is two days after a Saturday and one after a Sunday, and it is never past 31 December 9999 when the weekend day is not. |
| Birthdays.RepresentableIffUpToLastDay | main.py:85 | A calendar date is representable exactly when its ordinal is at most that of 31 December 9999. |
| Birthdays.AdjustForWeekend | main.py:88-91 | The result is never a Saturday or Sunday. Monday to Friday are kept; Saturday moves two days and Sunday one, both to Monday. A representable date stays representable, so no overflow is possible. |
| Birthdays.ReplaceYear | main.py:100-102 | Gives the same month and day in the target year. It fails exactly when the year is outside 1..9999 or the date is 29 February of a year that is not a leap year. |
| Birthdays.NextOccurrence | main.py:100-102 | A success is this year's occurrence, or next year's when this year's has passed, and is never before today. It fails exactly for 29 February without a leap day ahead this year, or a passed birthday in year 9999. |
| Birthdays.Congratulation | main.py:97-109 | An entry carries the contact's name and a weekday date 0..days days from today, reached from the occurrence by the weekend shift. The contact fails exactly when its occurrence fails. |
| Birthdays.CongratulationOfOccurrence | main.py:98-109 | A contact whose shifted occurrence lies within the window, and whose occurrence can be computed, gets an entry with that date's text. |
| Birthdays.CollectStep | main.py:97-108 | One iteration of the loop: the record's entry is appended, nothing is added, or its error ends the whole walk with that error. |
| Birthdays.CollectPrefixFailure | main.py:97-102 | An error among the first records decides the result of the whole walk. |
| Birthdays.CollectFailsIff | main.py:97-108 | The walk fails exactly when some record's outcome is an error. |
| Birthdays.CollectSound | main.py:97-108 | Every collected entry comes from its own record, and the entries follow the records' order. |
| Birthdays.CollectComplete | main.py:97-108 | Every record's entry is collected when the walk succeeds. |
| Birthdays.CollectNothing | main.py:97-108 | Records that yield no entry and no error yield an empty list. |
| Birthdays.UpcomingSound | main.py:93-109 | Each entry congratulates a distinct contact with a birthday, and the entries follow the records' order. |
| Birthdays.UpcomingComplete | main.py:93-109 | Every contact whose shifted occurrence lies within the window appears in the result, with that date's text. |
| Birthdays.UpcomingFailsIff | main.py:93-109 | The window fails exactly when some contact's birthday has no occurrence Python can compute. |
| Birthdays.NoBirthdaysNoEntries | main.py:97-98 | Without birthdays the result is empty. |
| Birthdays.SaturdayBirthdayExample | main.py:93-109 | With a birthday on 24.08 and today Tuesday 20.08.2024, the entry is dated Monday 26.08.2024, since the 24th is a Saturday. |
| Records.FirstMatch | main.py:50-54 | The position of the first phone equal to the text, if there is one; no earlier phone matches. |
| Records.JoinPhones | main.py:65 | The comma-joined phone list is empty for no phones and 12n-2 characters long otherwise. |
| Records.JoinPhonesAt | main.py:65 | Phone k sits at offset 12k of the joined text, followed by ", " unless it is the last. |
| Records.Record.constructor | main.py:30-33 | A new record has its name, no phones and no birthday. |
| Records.Record.AddPhone | main.py:35-36 | A valid number is appended at the end and earlier entries are kept, duplicates included. An invalid number leaves the list unchanged and fails with the phone error. |
| Records.Record.RemovePhone | main.py:38-41 | Only the first matching entry is removed and the others keep their order. It does nothing when the number is absent. |
| Records.Record.EditPhone | main.py:43-48 | The first match is replaced at its position when the new number is valid. If the old number is absent, the list is unchanged and the error names it. If the new number is invalid, the list is unchanged and the phone error is returned. |
| Records.Record.FindPhone | main.py:50-54 | Finds a phone exactly when some stored phone equals the text, and the one found has that value. |
| Records.Record.AddBirthday | main.py:56-57 | A valid text replaces any earlier birthday, and `show_birthday` then returns that text. An invalid text changes nothing and fails with the format error. |
| Records.Record.ShowBirthday | main.py:59-62 | Returns "Birthday not set" exactly when no birthday is stored. Otherwise it returns a text that builds the stored birthday again. |
| Records.Record.ToString | main.py:64-67 | Starts with "Contact name: <name>; phones: " and ends with "; birthday: " followed by the birthday text or "Not set"; what lies between is exactly the comma-joined phone list, whose layout `JoinPhonesAt` gives. |
| Book.IndexOf | main.py:76-78 | The first position of a name among the keys, or none exactly when the name is absent. |
| Book.RemoveAtKeepsOthers | main.py:76-78 | Removing one key keeps the others, in order and still without repeats. |
| Book.AddressBook.constructor | main.py:69 | A new book is empty and well formed. |
| Book.AddressBook.AddRecord | main.py:70-71 | The record is filed under its name, replacing any earlier one. A new name is appended to the insertion order, and `find` then returns the record. |
| Book.AddressBook.Find | main.py:73-74 | Returns null exactly when the name is not in the book; otherwise the record filed under that name. |
| Book.AddressBook.Delete | main.py:76-78 | The name is removed and every other entry and the order of the rest are kept. Deleting an absent name changes nothing, and `find` then returns null. |
| Book.AddressBook.ContactsOf | main.py:97 | The records' names and birthdays, one per key, in key order. |
| Book.AddressBook.GetUpcomingBirthdays | main.py:93-109 | The loop over the records in insertion order computes exactly `Upcoming` over the book's contacts, including the error of the first failing record. |
| Book.AddressBook.ToString | main.py:111-112 | Empty exactly when the book is empty; otherwise it starts with the first record's line. |
| Book.JoinLines | main.py:112 | Joining no lines gives the empty text; otherwise the text starts with the first line. |
| Book.JoinLinesAt | main.py:112 | Line k starts after the earlier lines and their newlines; a newline follows it unless it is the last, and the last one ends the text. |
| Book.AddressBook.Lines | main.py:112 | One line per record, in insertion order. |
| Book.AddressBook.LineOfRecord | main.py:112 | Line k is `str(record)` of the k-th record in insertion order. |
| Book.AddressBook.ToStringAt | main.py:111-112 | In the book's text, the k-th record's line starts after the earlier lines and their newlines; a newline follows it unless it is the last, and the last one ends the text. |
| Commands.AddContact | main.py:147-158 | Afterwards a record for the name exists. A new name gets a fresh record, appended in order, and "Contact added."; an existing name gets "Contact updated.". A non-empty valid phone is appended. An invalid phone leaves the phones as they were and returns the phone error. Other records are unchanged. |
| Commands.ChangeContact | main.py:161-168 | An unknown name gives "Contact doesn't exist.". Otherwise the record's phones change as `edit_phone` says, with "Contact updated." or the edit's error. Other records are unchanged. |
| Commands.AddTwiceExample | main.py:147-158 | Adding two numbers under one name gives "Contact added.", then "Contact updated.", and both numbers in order. |
| Commands.ChangeMissingExample | main.py:161-168 | Changing a phone of an unknown name gives "Contact doesn't exist.". |

## Left out

- The read-eval-print loop, `input()`, `print()` and the command dispatch in `main()` are I/O glue.
- The `input_error` decorator is not modelled. Its conversions of `KeyError`, `IndexError` and "unpack" errors into fixed messages are left out. So are the argument-unpacking errors of the handlers, whose arguments are parameters here.
- `parse_input` is left out; it is text tokenising glue.
- The handlers `phone_contact`, `all_contact`, `add_birthday`, `show_birthday` and `birthdays` are left out. They only wrap `Record`/`AddressBook` operations that are modelled, with fixed messages.
- `date.today()` is not called; `today` is a parameter.
- `DateText.ParseDate` reads `%d.%m.%Y` strictly. It does not accept the one-digit fields or leading spaces that Python's `strptime` also accepts. Nor does it accept non-ASCII decimal digits: `strptime` matches `%d` and `%Y` with the `\d` of a `str` pattern and reads the match with `int()`, so a text such as `24.08.١٩٩١` is a valid birthday in the source and is refused here.
- `Fields.NewPhone` accepts ASCII digits only. `str.isdigit` also accepts other Unicode digits.
- `DateText.FormatDate` always writes a four-digit year. Python's `strftime("%Y")` may write fewer digits for years below 1000, depending on the platform.
- `Records.Record.RemovePhone`: `list.remove` removes the first element equal to the phone object `find_phone` returned. `Phone` has no `__eq__`, so that comparison is by identity. It is the first entry with the matching value, which is what the model removes.
- `Birthdays.FindNextWeekday` requires a target weekday in 0..6; the source only calls it with Monday.
- Python's integer-to-date conversion `OverflowError` is not modelled, because the weekend shift is proved never to leave year 9999.
