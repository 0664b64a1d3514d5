# Hospital record manager — a Dafny model

This project models the core of a small hospital record manager. The manager
keeps patients, doctors and appointments. It has three layers:

- **Input parsing** (`utils.py`): `parse_int` reads a base-10 integer with
  `int()`: an optional sign and ASCII digits, with the whitespace `int()`
  skips around them, and at most 4300 digits (the interpreter's default
  limit). `parse_datetime` tries four `strptime` formats in a fixed order.
- **Services** (`services.py`): they validate raw form input in a fixed
  order. The first rule broken decides the error. The normalised record is
  then handed to a repository.
- **Repositories** (`repositories.py`): one per table. They add, list, look
  up, search, update and delete rows, over an abstract in-memory store.

The store (`store.dfy`) stands in for the SQL Server database. Each table is a
map from id to row, with its own identity counter starting at 1. It keeps the
two foreign keys from `appointments` to `patients` and `doctors` (database.py,
lines 104-105), with no cascade. Inserting an appointment whose patient or
doctor is missing fails. Deleting a patient or doctor that an appointment
still refers to fails. `Store.Valid` is the invariant the store keeps: every
id was issued by its counter, and every foreign key resolves. Every write
preserves it.

Python exceptions become `Result` failures, one `Errors.Error` constructor per
raised message. The clock (`datetime.now()`, `GETDATE()`) is a parameter `now`.

Modules, by file:

| file | module | models |
|---|---|---|
| wrappers.dfy | Wrappers | `Option`, `Result` |
| errors.dfy | Errors | the raised messages |
| text.dfy | Text | `str.isspace`, `str.strip`, digit runs, substring search |
| datetimes.dfy | DateTimes | `datetime` values, calendar validity, `<` |
| utils.dfy | Utils | `parse_int`, `parse_datetime`, and their inverses `str(n)` and `strftime` |
| models.dfy | Models | the dataclasses of models.py |
| store.dfy | Store | the three tables, identity counters, foreign keys |
| sorting.dfy | Sorting | `ORDER BY id`, `ORDER BY scheduled_at [DESC]`, `WHERE` filters |
| repositories.dfy | Repositories | the three repositories |
| services.dfy | Services | the three services |

Several service methods only call a repository: list, get, search and
delete, plus `list_upcoming` and `list_detailed` (services.py:33-43, 66-68,
89-99, 116-118, 143-149). They are modelled by the repository members they
call: `ListAppointments(st, true, now)` is `list_upcoming`, and
`DetailedList` is `list_detailed`.

Two behaviours of the code are worth stating, because a reader of the
services might expect otherwise. The model follows the code in both:

- An appointment scheduled exactly at `now` is accepted. The check at
  services.py:137 rejects only `scheduled < now`. See
  `Services.CheckAppointmentIff`.
- A blank gender is rejected with "Gender must be M, F, or Other". The
  membership test (services.py:21, 55) runs before `gender.strip() or None`
  (services.py:28, 62), so that fallback never produces `None`. See
  `Services.BlankGenderRejected` and `Services.AcceptedGenderIsKept`.

## Model

| member | source | states |
|---|---|---|
| Utils.ReadDecimal | utils.py:6 | A stripped text is read as integer `v` exactly when it is a decimal literal for `v`: an optional `+`/`-` followed by one or more digits. |
| Utils.ParseInt | utils.py:4-9 | Every failure is "Invalid Integer" and carries the original text. |
| Utils.ParseIntSound | utils.py:4-9 | A successful parse read a decimal literal of at most 4300 digits, with only whitespace `int()` skips around it. |
| Utils.ParseIntComplete | utils.py:4-9 | Every decimal literal of at most 4300 digits, padded with whitespace `int()` skips, parses to the integer it denotes. |
| Utils.ParseIntIff | utils.py:4-9 | `parse_int` succeeds with `v` if and only if the text is a literal for `v` of at most 4300 digits, padded only with whitespace `int()` skips. There is no partial parse. |
| Utils.FileSeparatorRefused | utils.py:4-9 | U+001C before a literal, which `str.strip()` would remove, makes `parse_int` fail: `int()` does not skip it. |
| Utils.TooManyDigitsRefused | utils.py:4-9 | A run of more than 4300 digits fails with "Invalid Integer", as `int()` raises on it. |
| Utils.ParseIntRoundTrip | utils.py:6 | `parse_int(str(n)) == n` for every integer `n` of at most 4300 digits. |
| DateTimes.DaysInMonth | utils.py:15 | The Gregorian month lengths: 31 for the long months, 30 for April, June, September and November, 29 for February of a leap year and 28 otherwise. |
| Utils.ParseWith | utils.py:15 | A successful `strptime` under one format yields a valid timestamp with zero seconds and microseconds. |
| Utils.FirstMatch | utils.py:13-17 | The loop fails exactly when every format fails. Otherwise it returns the result of the first format that matches, and every earlier format failed. |
| Utils.ParseDateTime | utils.py:11-18 | The result is a valid timestamp, with month 1..12, a day that exists in that month, hour 0..23 and minute 0..59. It fails with the "Invalid datetime" error exactly when none of the four formats matches. |
| Utils.ParseDateTimeIff | utils.py:12-15 | `parse_datetime` returns `d` exactly when one of the four formats reads `d` from the text. |
| Utils.FormatsExclusive | utils.py:12-15 | No text matches two of the four formats, so their order never reinterprets a text. |
| Utils.YearFieldExcludesDayFirst | utils.py:12 | A text starting with four digits never matches either day-first format. |
| Utils.DateOnlyFormatsYieldMidnight | utils.py:12 | The date-only formats always yield hour 0 and minute 0. |
| Utils.MatchKeepsAbsentFields | utils.py:15 | A format without `%H` or `%M` never sets the hour or minute, so they keep `strptime`'s default of 0. |
| Utils.ParseDateTimeRoundTrip | utils.py:12-15 | A valid whole-minute timestamp written in any of the four formats is read back unchanged. Date-only formats need a midnight time. |
| Text.Strip | services.py:17 | `str.strip()`: the result is empty exactly when the text is all whitespace. Otherwise it is the text's core, with no whitespace at either end and only whitespace around it. |
| Text.ContainsIff | repositories.py:41-50 | The substring test succeeds exactly when the query occurs at some position of the text. |
| Sorting.SortedIds | repositories.py:28 | `ORDER BY id`: the table's ids, strictly increasing, each exactly once. |
| Sorting.FilterIds | repositories.py:46 | A `WHERE` clause keeps exactly the ids that satisfy it, in their original order. |
| Sorting.SortAscending | repositories.py:161 | `ORDER BY scheduled_at`: non-decreasing in the key, and a permutation of the input. |
| Sorting.SortDescending | repositories.py:166 | `ORDER BY scheduled_at DESC`: non-increasing in the key, and a permutation of the input. |
| Repositories.AddPatient | repositories.py:13-22 | The insert returns an id larger than every id in the table. `get_by_id` then returns the given fields with that id and creation time `now`. No other row and no other table changes, and the store stays valid. |
| Repositories.ListPatients | repositories.py:25-30 | Every stored patient, each exactly once, by ascending id. |
| Repositories.GetPatient | repositories.py:33-38 | `None` exactly when no row has the id. Otherwise the row stored under that id. |
| Repositories.SearchPatients | repositories.py:41-50 | Exactly the stored patients whose name contains the query, each once. |
| Repositories.UpdatePatient | repositories.py:53-61 | True iff a row with the record's id exists. That row gets the new name, age and gender and keeps its creation time. Every other row and table is unchanged, and nothing is inserted. |
| Repositories.DeletePatient | repositories.py:64-69 | Fails with a foreign-key error exactly when the patient exists and an appointment refers to it. Otherwise it reports whether the row existed. Afterwards `get_by_id` finds nothing there and every other row is unchanged. |
| Repositories.AddThenDeletePatient | repositories.py:64-69 | A patient just added can be deleted at once, which restores the table. |
| Repositories.AddDoctor | repositories.py:78-87 | As for patients: a fresh, larger id; the given fields read back; nothing else changes. |
| Repositories.ListDoctors | repositories.py:90-95 | Every stored doctor, each exactly once, by ascending id. |
| Repositories.GetDoctor | repositories.py:98-103 | `None` exactly when no row has the id. Otherwise the row stored under that id. |
| Repositories.SearchDoctors | repositories.py:106-115 | Exactly the stored doctors whose specialty contains the query, each once. A missing specialty never matches. |
| Repositories.UpdateDoctor | repositories.py:118-126 | True iff the row exists. Only its name and specialty change, and its creation time is kept. |
| Repositories.DeleteDoctor | repositories.py:129-134 | Foreign-key failure exactly when the doctor is referenced. Otherwise reports whether the row existed, and only that row goes. |
| Repositories.AddThenDeleteDoctor | repositories.py:129-134 | A doctor just added can be deleted at once, which restores the table. |
| Repositories.AddAppointment | repositories.py:143-152 | Fails with a foreign-key error exactly when the patient or the doctor is missing. Otherwise the appointment is stored under a fresh, larger id, and no other appointment changes. |
| Repositories.ListAppointments | repositories.py:155-170 | With `upcoming_only`: exactly the appointments at or after `now`, ascending by time. Without it: all appointments, descending by time. Each appears once either way. |
| Repositories.DetailedList | repositories.py:173-195 | Exactly one record per appointment whose patient and doctor both exist, carrying the names stored under those ids. Records ascend by time. |
| Repositories.DetailedListCoversAll | repositories.py:176-181 | In a valid store the join loses no appointment: one record for each. |
| Repositories.DeleteAppointment | repositories.py:198-203 | True iff the id existed. Only that row is removed, and the store stays valid. |
| Repositories.AddThenDeleteAppointment | repositories.py:198-203 | An appointment just added can be deleted at once, which restores the table. |
| Services.CheckPatient | services.py:13-22 | The first broken rule decides the error, in this order: age parse, then age ≤ 0, then blank name, then bad gender. An accepted form has a positive age, the trimmed non-blank name and one of the four gender codes. |
| Services.CheckPatientIff | services.py:13-22 | The form is accepted with age `v` exactly when the age text is a literal for a positive `v` that `int()` reads, the name is not blank and the trimmed gender is a code. |
| Services.BlankGenderRejected | services.py:20-22 | A blank gender is rejected as a bad gender code. |
| Services.AcceptedGenderIsKept | services.py:28 | `gender.strip() or None` keeps every accepted gender, so the stored gender is never `None`. |
| Services.CreatePatient | services.py:12-31 | Fails exactly when the checks fail, with their error. Otherwise the new patient reads back with the trimmed name, the parsed age, the trimmed gender and a fresh id. Every other patient reads back as before, and the doctors and appointments are unchanged. |
| Services.UpdatePatient | services.py:46-64 | The same checks, then the repository's answer for the given `pid`, unchanged. On true the row holds the trimmed values and its old creation time. Other patients, the doctors and the appointments are unchanged. |
| Services.CheckDoctor | services.py:76-80 | A blank name is reported before a blank specialty. An accepted form holds both values trimmed. |
| Services.CreateDoctor | services.py:75-87 | Fails exactly when the name or specialty is blank. Otherwise the doctor reads back with the trimmed values and a fresh id. Every other doctor reads back as before, and the patients and appointments are unchanged. |
| Services.UpdateDoctor | services.py:102-114 | The same checks, then true iff doctor `did` exists. That row then holds the trimmed values. Other doctors, the patients and the appointments are unchanged. |
| Services.CheckAppointment | services.py:127-138 | Patient id, doctor id and time are all parsed before any range check, in that order. An accepted request has positive ids and a time not before `now`. |
| Services.CheckAppointmentOrder | services.py:127-138 | After the parses the order is: bad time text, then patient id ≤ 0, then doctor id ≤ 0, then a time before `now`. |
| Services.CheckAppointmentIff | services.py:131-138 | The request is accepted exactly when both ids parse and are positive and the time parses and is not before `now`. `scheduled == now` is accepted. |
| Services.Schedule | services.py:126-141 | A failed check is reported as is. Otherwise it fails exactly when the patient or doctor is missing. On success the appointment is stored with the parsed fields under a fresh id. No other appointment changes, and the patients and doctors are unchanged. |
| Services.ScheduledIsUpcoming | services.py:137-145 | An appointment `schedule` accepts at time `now` is listed by `list_upcoming` at that time. |
| Services.Cancel | services.py:152-156 | A parse failure, then a non-positive id, are errors. Otherwise it returns exactly whether the appointment existed, and removes only it. |
| Services.ScheduleThenCancel | services.py:152-156 | Cancelling the appointment just scheduled, by its printed id, returns true and restores the appointments (for ids of at most 4300 digits). |

## Left out

- The console loop of main.py, and the connection handling, retry loop and
  table creation of database.py. Only the identity columns and the two foreign
  keys of the schema are modelled.
- Utils.ParseInt: Python's `int()` also accepts `_` between digits and
  non-ASCII decimal digits. Only ASCII digits with an optional sign are
  modelled. The padding it skips is the `str.isspace` set without
  U+001C..U+001F. The 4300-digit limit is the default of
  `sys.set_int_max_str_digits` (Python 3.11 and later); a changed limit, or an
  older interpreter without one, is not modelled.
- Utils.ParseWith: `strptime`'s `%d` also accepts a space followed by one
  digit. `\d` and `\s` in its patterns also match non-ASCII digits and
  whitespace. The model keeps ASCII digits and the `str.isspace` whitespace.
  The digit widths, value ranges, `\s+` for the format's space and the
  whole-string match are modelled.
- Utils.FormatDateTime is `strftime` for the round trip only. It always writes
  `%Y` as four digits, which `strftime` does not do for years below 1000 on
  every platform.
- Repositories.SearchPatients and Repositories.SearchDoctors: `LIKE` is
  case-insensitive under the usual collations. `%`, `_` and `[` in the query
  are not escaped (repositories.py:42, 107). The model uses a case-sensitive
  plain substring test. The queries have no `ORDER BY`; the model returns id
  order, which the database does not promise.
- Ties in `ORDER BY scheduled_at` come in no promised order. The contracts
  state sorted permutations, not one order.
- Column widths are left out: `INT` ids, and names, genders, specialties and
  notes longer than their `VARCHAR` limits. Ids and strings are unbounded.
- Repositories.AddPatient and Repositories.UpdatePatient: `age` is an `INT`
  column (database.py:75). An age above 2147483647, such as "2147483648",
  makes the insert or update raise; the model stores it.
- Repositories.AddPatient, Repositories.UpdatePatient, Repositories.AddDoctor
  and Repositories.UpdateDoctor: the text columns are `VARCHAR`
  (database.py:74, 76, 87-88, 102). Under a collation whose code page lacks a
  character, the database stores `?` in its place. The contracts state an
  exact read-back, which holds only for text the code page can hold.
- Repositories.AddDoctor: names and specialties longer than 100 characters
  are refused by the database; the model stores them.
- Repositories.AddAppointment: `patient_id` and `doctor_id` are `INT`
  columns (database.py:99-100). A positive id above 2147483647 raises a
  conversion error, where the model reports a foreign-key failure. A rejected
  insert leaves the identity counter as it was. SQL Server may use up an identity value on a failed insert. Ids
  stay fresh and increasing either way.
- `created_at` and `GETDATE()` use the caller's `now`. `datetime.now()` and
  the database clock are one reading, and `DATETIME2` precision is not
  modelled.
- The text of the "Invalid datetime" message, which lists the formats, is
  one error constant.
- The pass-through service methods have no members of their own. The
  repository members model them, since the services add nothing.
