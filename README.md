# Address book contact store

A Dafny model of the contact store in `main.py`. It covers:

- **Phone field.** The validated phone field and its setter, which validates before it stores.
- **`Record`.** A contact with a name, an optional birthday and an ordered list of `Phone` objects, with the operations on that list:
  - `add_phone`, `remove_phone`, `find_phone` and `edit_phone`;
  - `get_phones`, `__str__` and `to_json`;
  - `days_to_birthday`.
- **`AddressBook`.** An insertion-ordered dictionary from exact-case name to `Record`, with:
  - `add_record`, `find`, `delete` and `change_phone`;
  - `search`, `get_page`, `record_iterator` and `get_n_records`.

The model follows the program's own form:

- **Classes for state changed in place.** `Phone` (its `value`), `Record` (its `phones` list) and `AddressBook` are classes whose methods change their fields. `AddressBook` keeps its key order in `keys` and its dictionary in `data`.
- **Pure functions for the rest.** Every method is proved against a pure function on values.
  - `Contacts` describes one record's contents as a `Contact` value.
  - `Directory` describes the book's contents as a sequence of `Contact`s in insertion order.
  - A method's contract ties its result and its new state to those functions, through `View()`.
  - Lemmas state what the functions promise: the first match, the merge law, deletion of exactly one record, search membership in both directions, page windows, and the round trip through the saved form.
- **The store's invariant.** `AddressBook.Valid()` is kept by every method. Each key is its record's name, no two names are equal once lower-cased, every record holds only accepted values, and no phone object belongs to two records.

The module layout follows the program:

- `Wrappers` and `Errors` hold the result types and the exceptions raised.
- `Text` holds lower-casing, substring search, joining, zero-padded decimal text and hexadecimal text.
- `Calendar` is the `datetime` arithmetic the source relies on.
- `Fields` has the `Phone` class, `Contacts` the record value, and `Records` the `Record` class.
- `Directory` holds the book-level specification, and `Book` the `AddressBook` class.

Inputs the program reads from its environment are parameters:

- the clock reading of `datetime.now()`: `Calendar.Moment`;
- the address each phone object shows in its default string form: `Phone.address`.

Three behaviours of `main.py` are easy to miss, and the model keeps them as written:

- `find_phone` never finds a number, because it compares `str(p)` with the argument. For a `Phone` that is the object's default representation, not its value.
- On the birthday itself, any time after midnight, `days_to_birthday` returns 364 or 365 rather than 0. It raises instead for a 29 February birthday, since the following year has no 29 February, and in year 9999, since year 10000 does not exist.
- A phone holding None is saved as the text "None", and the saved record then fails to load.

## Model

| member | source | states |
|---|---|---|
| Fields.Phone.SetValue | main.py:35-42 | The value is stored only when it satisfies `Fields.ValidPhoneValue` (`validate_phone`: None or exactly ten digits). Otherwise the result is the invalid-phone error and the previous value stays. |
| Fields.Phone.constructor | main.py:8-10 | A new field starts with `_value` None. |
| Fields.NewPhone | main.py:8-10 | `Phone(v)` succeeds exactly when `v` is accepted, and the new object then holds `v`. Otherwise the error is the invalid-phone error. |
| Fields.ReprIsNotANumber | main.py:75-80 | The default string form of a phone object is never an accepted phone number. |
| Calendar.MakeDate | main.py:96-98 | `datetime(y, m, d)` succeeds exactly for a real date in years 1 to 9999, and fails with the year or day error otherwise. |
| Calendar.ParseDateText | main.py:53-63 | The `%Y-%m-%d` text of a valid date parses back to that same date. |
| Calendar.DateTextInjective | main.py:62-63 | Distinct valid birthdays have distinct display texts. |
| Calendar.DaysToBirthdayBounds | main.py:93-101 | The day count is between 0 and 365 at any time of day. It fails only for a 29 February birthday in a year without one, or in year 9999. |
| Calendar.DaysToBirthdayOnTheDay | main.py:96-99 | On the birthday itself, after midnight, the count is 364 or 365 (the length of the coming year minus one), not 0. |
| Calendar.DaysToBirthdayDayBefore | main.py:96-99 | Any time after midnight on the day before a date carrying the birthday's month and day, the count is 0, including 31 December before a 1 January birthday. |
| Calendar.DaysToBirthdayByDateCorrect | main.py:93-101 | The date-only count is 0 exactly on the birthday and between 1 and 365 otherwise. It reaches a date with the birthday's month and day. |
| Contacts.NewContact | main.py:67-70 | A record is built exactly when the birthday is a real date and every phone value is accepted. The birthday is checked first and its error wins. |
| Contacts.EditPhoneChangesFirstMatchOnly | main.py:82-88 | Editing changes only the first phone whose text equals the old number. Length, name, birthday and all other phones stay the same. It fails with "not found" when nothing matches, otherwise with the invalid-phone error for a rejected value. Validity is kept. |
| Contacts.DisplayShows | main.py:103-106 | The display string `Contacts.Display`, which `Records.Record.ToString` (`__str__`) returns for the record's contents, contains the name and the text of every phone. |
| Contacts.JsonRoundTrip | main.py:108-113 | Saving a record with `Contacts.ToJson`, which `Records.Record.ToJsonRecord` (`to_json`) returns for the record's contents, and loading it again gives back the same record when every phone holds a number. |
| Contacts.JsonNonePhoneDoesNotLoad | main.py:108-113 | A phone holding None is saved as "None", and loading that record fails. |
| Contacts.RemoveNumberCorrect | main.py:75-76 | The intended removal keeps exactly the phones whose text differs from the argument. Removing twice is the same as removing once. |
| Contacts.FindNumberCorrect | main.py:78-80 | The intended lookup returns the number exactly when some phone holds it, and None otherwise. |
| Records.Record.Create | main.py:67-70 | `Record(...)` succeeds exactly when `NewContact` does, with the same error otherwise. On success it gives a valid record of fresh phone objects holding the given values. |
| Records.Record.AddPhone | main.py:72-73 | An accepted value is appended as a new phone object. A rejected value raises the invalid-phone error and leaves the list unchanged. |
| Records.Record.ExtendPhones | main.py:126 | The list becomes the old list followed by the extra phone objects, and the values follow suit. |
| Records.Record.RemovePhone | main.py:75-76 | The list becomes the comprehension's result, and the record stays valid. |
| Records.WithoutReprKeeps | main.py:76 | The comprehension keeps exactly the phones whose object form differs from the argument, and never grows the list. |
| Records.WithoutReprSubsequence | main.py:76 | The comprehension keeps distinct objects distinct and adds nothing new. |
| Records.WithoutReprKeepsNumbers | main.py:76 | An argument not starting with '<', such as any phone number, removes nothing. |
| Records.Record.FindPhone | main.py:78-80 | The result is the value of the first phone whose object form equals the argument. When no phone's object form matches, the result is None. |
| Records.Record.EditPhone | main.py:82-88 | The result and the new record contents are exactly `Contacts.EditPhone` of the old contents. The list of phone objects is unchanged. |
| Records.Record.SetPhoneAt | main.py:84-86 | Assigning through the first matching phone gives exactly `Contacts.EditPhone`'s outcome. No other phone is affected. |
| Records.Record.GetPhones | main.py:90-91 | The texts of the phones' current values, in list order. |
| Records.Record.DaysToBirthday | main.py:93-101 | None without a birthday; otherwise the day count or the `datetime` error, and a count lies between 0 and 365. |
| Directory.FindIndexCorrect | main.py:130-132 | The position found is the first whose lower-cased name equals the lower-cased argument. It is -1 exactly when there is none, and the only match when names are unique. |
| Directory.FindIndexLowered | main.py:139-141 | Looking up the lower-cased name finds the same record as looking up the name. |
| Directory.AddRecordCorrect | main.py:122-128 | Adding keeps names unique and records valid. On a case-insensitive clash it appends the new phones to that record only. Otherwise it appends the record. |
| Directory.AddRecordMergeLaw | main.py:122-128 | Adding two records whose names differ only in case leaves one record with phones A followed by B. |
| Directory.DeleteCorrect | main.py:134-137 | Afterwards no record matches the name. The remaining records are exactly the others. It is a no-op without a match and removes exactly one record otherwise. |
| Directory.RemoveAtKeepsOthers | main.py:137 | Removing one position keeps every other record, in order, with names unique. |
| Directory.ChangePhoneCorrect | main.py:139-145 | It fails with "Contact {name} not found" exactly when no name matches. Otherwise it has the matching record's `edit_phone` outcome, with all other records unchanged. |
| Directory.SearchCorrect | main.py:147-156 | Every result is the display string of a matching record, every matching record's display string is a result, and there are no more results than records. |
| Directory.SearchEmptyQuery | main.py:147-156 | The empty query returns every record's display string, in order. |
| Directory.SearchHitShowsPhoneQuery | main.py:151-155 | A record whose phone text contains the query matches, and its display string contains the query. |
| Directory.Displays | main.py:179-181 | The display string of each record, position by position. |
| Directory.PageWindow | main.py:174-177 | The slice `Directory.Page` (`get_page`): page `p >= 1` holds positions `(p-1)*5` up to `min(p*5, N)`. A page past the end and page 0 are empty, and no page has more than five records. |
| Directory.PagesTile | main.py:174-177 | Pages 1 to k together are exactly the first `min(5k, N)` records. |
| Directory.NRecordsRepeatsFirst | main.py:183-191 | With two records of different display strings, `get_n_records(2)` returns the first one twice, not the first two. |
| Directory.FirstNCorrect | main.py:183-191 | The intended result holds `min(n, N)` strings, or none for `n <= 0`: the display strings of the first records in order. |
| Book.ViewOfInsert | main.py:128 | Inserting a new name keeps the invariant and appends the record's contents to the book's contents. |
| Book.RemoveKey | main.py:137 | Deleting a key from both the order and the dictionary keeps the key order and the dictionary in step. |
| Book.ViewOfRemove | main.py:137 | Deleting position `i` keeps the invariant and removes exactly position `i` of the book's contents. |
| Book.AddressBook.constructor | main.py:117-120 | A new book is empty and valid, with page size 5 and current page 1. |
| Book.AddressBook.Find | main.py:130-132 | The result is null exactly when no key matches case-insensitively. Otherwise it is the stored record under a matching key. |
| Book.AddressBook.FindAgrees | main.py:130-132 | `find` returns the record at the position `Directory.FindIndex` gives for the book's contents. |
| Book.AddressBook.AddRecord | main.py:122-128 | The new contents are `Directory.AddRecord` of the old contents and the record's contents, and the invariant is kept. With no match, the record object itself is stored under its name and every old entry keeps its record. With a match, the key order and the dictionary are unchanged and the matched record's phone list becomes its old list followed by the argument's phone objects. Every record whose name does not match keeps its phone list. |
| Book.AddressBook.InsertKey | main.py:128 | Storing under a new name appends the record's contents. The record object itself is stored under its name, and every old key keeps its record object. |
| Book.AddressBook.ExtendAt | main.py:124-126 | Only the merged record changes. Its phone list becomes its old list followed by the argument's own phone objects, which stay shared, and its contents follow. The key order, the dictionary and every other record's phone list are unchanged. |
| Book.AddressBook.Delete | main.py:134-137 | The new contents are `Directory.Delete` of the old contents, and the invariant is kept. The keys left are exactly the old keys that do not match case-insensitively, each with its old record object. |
| Book.AddressBook.DeleteFound | main.py:135-137 | Deleting the record `find` located is `Directory.Delete`. Only that record's key leaves the dictionary, and every other key keeps its record object. |
| Book.AddressBook.RemoveAt | main.py:137 | Deleting the key at position `i` removes exactly that position from the contents and exactly that key from the dictionary. Every other key keeps its record object. |
| Book.AddressBook.ChangePhone | main.py:139-145 | The outcome and the new contents are `Directory.ChangePhone` of the old contents. On failure nothing changes. Every record keeps its list of phone objects; only a phone's value can change. |
| Book.AddressBook.Search | main.py:147-156 | The results are `Directory.Search` of the contents with the lower-cased query. |
| Book.MatchingLines | main.py:149-155 | The loop collects exactly `Directory.Search`'s display strings. |
| Book.AddressBook.Records | main.py:177 | `data.values()` in insertion order, each holding the book's contents at its position. |
| Book.AddressBook.GetPage | main.py:174-177 | For `p >= 1`, the records at positions `(p-1)*5` up to `min(p*5, N)`. Empty past the end, and never more than five. |
| Book.AddressBook.RecordStrings | main.py:171-181 | Iterating the book yields every record's display string in insertion order. |
| Book.Lines | main.py:179-181 | The generator's strings are `Directory.Displays` of the records' contents. |
| Book.AddressBook.FirstRecordString | main.py:187 | The first string a fresh iterator yields: none exactly when the book is empty, otherwise the first record's display string. |
| Book.AddressBook.GetNRecords | main.py:183-191 | The result is `Directory.NRecordsAsWritten`: n copies of the first record's display string, or none when the book is empty or n <= 0. |

## Left out

- The command loop, the command parsing and the dispatch helpers (main.py:194-321) are not modelled. They are console input and output.
- The `input_error` decorator (main.py:194-201) is not modelled. It only turns exceptions into printed text.
- The module-level `contacts` object is not modelled. A book is constructed explicitly instead.
- `save_to_file` and `load_from_file` are not modelled as file I/O or `json` encoding. Only the mapping of one record to and from its saved dictionary is modelled (`Contacts.ToJson`, `Contacts.FromJson`).
- `load_from_file`'s handling of a missing file is not modelled. It prints a message and keeps the book.
- `Name` is modelled as a plain string. Its `__str__` is `str(value)`.
- Fields.Phone.SetValue: values are `Option<string>`, so the setter's rejection of a non-string argument is not modelled.
- Text.Lower and Text.IsDigit handle ASCII only. Python's `lower()` and `isdigit()` also cover other Unicode letters and digits.
- Calendar.ParseDate accepts only the zero-padded `YYYY-MM-DD` form. `strptime` also accepts unpadded months and days.
- Calendar.DateText pads the year to four digits. Some platforms' `strftime` prints years below 1000 unpadded. On such a platform a birthday before year 1000 is saved as, say, "999-05-11", which `strptime`'s `%Y` does not accept, so the record fails to load and `Contacts.JsonRoundTrip` does not hold there.
- Calendar.DaysToBirthday takes the clock reading as a parameter, with microsecond resolution and no time zone.
- Fields.Phone.constructor: the object address that `str(p)` shows is a parameter, chosen by the runtime in the source.
- Records.Record.Valid does not require the phone objects of a record to have distinct addresses. The runtime gives live objects distinct ids, so in the source one `remove_phone` call drops at most one phone; the model would drop every phone sharing an address.
- Book.AddressBook.AddRecord requires that the new record's phone objects are not already in the book. Re-adding a record object the book already holds is therefore not covered; in the source that makes the record extend its list with itself.
- Book.AddressBook.ExtendAt: the merged phone objects stay shared with the argument record, and the book's footprint takes that record in. Later changes made through the argument record are not tracked separately.
- Book.AddressBook.GetPage states only the length bound for page numbers below 1. Python's negative-index slicing is modelled in `Directory.PySlice`, but no contract describes it.
- Book.AddressBook.FirstRecordString returns None where the generator would raise `StopIteration`.
- `current_page` is kept as a constant set by the constructor. Only the command layer (main.py:248-250) reads it, and that layer is not modelled.

## Findings

| source | as written | input that shows it | evidently intended | confidence | as-written member | corrected member |
|---|---|---|---|---|---|---|
| main.py:183-191 | `next(self.record_iterator())` creates a new generator at every step, so each step yields the first record again | a book holding two records with different display strings, `get_n_records(2)` | the first `n` records, in order | not executed | Directory.NRecordsRepeatsFirst | Directory.FirstNCorrect |
| main.py:75-80 | `remove_phone` and `find_phone` compare `str(p)`, the default object representation of the `Phone` object, never the number | a record with phone "1234567890": `remove_phone("1234567890")` keeps it and `find_phone("1234567890")` returns None | compare `str(p.value)`, the number | not executed | Records.WithoutReprKeepsNumbers | Contacts.RemoveNumberCorrect |
| main.py:96-99 | `today` carries the time of day and is compared with the birthday at midnight | birthday 1990-05-11: at 2024-05-10 12:00 the answer is 0, and at 2024-05-11 12:00 it is 364 | whole calendar days, 0 on the birthday itself | not executed | Calendar.DaysToBirthdayOnTheDay | Calendar.DaysToBirthdayByDateCorrect |
