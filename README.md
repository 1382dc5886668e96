# Foreign-student attendance register, modelled in Dafny

The application keeps a register of foreign students (`Aluno`), records their
daily arrivals and departures (`Presenca`), and restricts user management to
administrators. This project models:

- the relational store of `database.py`: three tables, and the
  create/read/update/delete operations on them;
- the workflow logic of `app.py`: the login session, how the search form's
  filter mapping is built, the entry/exit buttons of the attendance screen,
  and the administrator gate on user management.

Modules:

- `Wrappers` (`wrappers.dfy`): the `Option` type.
- `Text` (`text.dfy`): SQLite's ASCII `lower()` and the substring test that
  `ilike '%…%'` performs.
- `Store` (`store.dfy`): the store.
  - Each table is a `Table<T>`: a map from integer primary key to row, plus
    the key the next insert receives.
  - Queries are functions over those maps: a key-ordered scan (`Keys`), a
    filter (`Select`), and a newest-first insertion sort for attendance.
  - The mutating operations are methods of the class `Database`. Its
    `Valid()` invariant requires every key to lie below the next key, and
    usernames to be unique.
- `App` (`app.dfy`): the screens.
  - The session is a class whose `user` field the login and logout methods
    assign.
  - The filter mapping is built field by field.
  - The exit button scans the day's listing with a loop that stops at the
    first record without a departure time.

The current time is a parameter `now`:

- dates are days since 1970-01-01;
- instants are microseconds since 1970-01-01T00:00, the resolution of
  `datetime.now()` and of the stored DATETIME columns;
- `DateOf` is the date an instant falls on.

The password verifier is a parameter `checkPassword`, about which nothing is
assumed. The stored password hash is passed in ready-made.

`listar_presencas` orders by `data DESC, hora_entrada DESC`
(database.py:185). The exit button takes the first record without a
departure time in that order (app.py:255-259). That is the open record of
the day with the *latest* entry, as the comment at app.py:254 also says
("the last one with an empty exit time"). `App.PressExit` and
`App.FirstOpenIsLatest` prove that the closed record is not older than any
other open record of that student that day; `App.EntryThenExitWhileOpen`
shows that an exit after a second entry closes the newer record.

## Model

| member | source | states |
|---|---|---|
| Text.LowerChar | database.py:96 | SQLite `lower()` maps A-Z to a-z and leaves every other character unchanged |
| Text.Lower | database.py:96 | lower-casing keeps the length and folds every character by `LowerChar` |
| Text.LowerIdempotent | database.py:96 | folding twice is folding once |
| Text.ContainsIgnoringCaseLowerPattern | database.py:96 | a name matches a lower-cased pattern exactly when it matches the pattern itself |
| Text.ContainsIgnoringCaseSelf | database.py:96 | every name matches a name search for itself, in any case |
| Store.DateOf | database.py:151-152 | the date of an instant is the day whose 86 400 000 000-microsecond window contains it |
| Store.EmptyTable | database.py:53-54 | a freshly created table is valid and holds no row |
| Store.KeysBetween | database.py:93-105 | a scan of a key range lists exactly the keys present in that range, in strictly increasing order |
| Store.Keys | database.py:93-105 | a full-table scan lists exactly the table's keys, in increasing order |
| Store.KeysCount | database.py:93-105 | a full scan visits each row once: as many keys as rows |
| Store.Select | database.py:93-105 | a filtered scan returns exactly the rows of the scanned keys that pass the filter, and all of them when every row passes |
| Store.SelectAscending | database.py:93-105 | a filtered scan in key order returns rows by strictly increasing id, so no row twice |
| Store.NewStudent | database.py:72-81 | the inserted row holds each column of the mapping; a mapping without a name gives no row (NOT NULL) |
| Store.NewStudentOfFields | database.py:72-81 | inserting a student's own columns gives back exactly that student |
| Store.ApplyUpdate | database.py:124-126 | each column whose key is present with a non-None value takes that value; every other column keeps its old value |
| Store.UpdateWithNothing | database.py:124-126 | an update mapping with no usable key changes nothing |
| Store.UpdateIdempotent | database.py:124-126 | applying the same update twice equals applying it once |
| Store.UpdateWithAllColumns | database.py:124-126 | an update that gives every column a value replaces the whole row |
| Store.SameOnAllColumns | database.py:26-36 | a student row is determined by its eight columns |
| Store.ApplyUpdateDetermined | database.py:124-126 | any row that holds the provided values and keeps every other column equals the updated row, so the per-column contract fixes the update |
| Store.ListStudents | database.py:90-105 | the listing holds exactly the stored students that satisfy every given filter (name contains the text ignoring case, country equals, grade equals, entry date within the bounds), by increasing id |
| Store.ListStudentsUnfiltered | database.py:94-105 | with no filters, or only empty ones, every student is listed, once each |
| Store.SearchByCountryExample | database.py:97-98 | on a three-student roster, filtering by country lists exactly the two students from that country |
| Store.SearchByGradeExample | database.py:99-100 | on the same roster, filtering by grade lists exactly the two students in that grade |
| Store.GetStudent | database.py:110-113 | lookup by id finds a student exactly when the unfiltered listing shows that id with that student |
| Store.OpenRecord | database.py:151-152 | the new record belongs to the student, is entered at the given instant, is dated that instant's date, carries the given note, and has no departure |
| Store.NotOlderTotal | database.py:185 | any two records are comparable under `data DESC, hora_entrada DESC` |
| Store.NotOlderTransitive | database.py:185 | the newest-first order is transitive |
| Store.PrependNewest | database.py:185 | a record not older than all records of a newest-first list can head it |
| Store.InsertNewestFirst | database.py:185 | inserting into a newest-first list keeps it newest-first and adds exactly that record |
| Store.SortNewestFirst | database.py:185 | sorting yields a newest-first permutation of its input |
| Store.ListAttendance | database.py:175-185 | the listing holds exactly the records matching the student filter (none for 0 or None) and the date bounds, is a permutation of the matching rows, and is ordered date descending, then entry time descending with NULL last |
| Store.ListAttendanceDistinct | database.py:175-185 | no attendance record appears twice in the listing |
| Store.LaterEntryListedFirst | database.py:185 | of two listed records of the same day, the one entered later, even by one microsecond, is listed first |
| Store.WithoutStudent | database.py:38 | the cascade keeps exactly the attendance rows of other students, unchanged |
| Store.CascadeLeavesNoOrphans | database.py:38 | deleting a student with its attendance leaves every remaining record owned by an existing student |
| Store.FindUser | database.py:210 | the lookup returns an account with that name, and returns none exactly when no account has it |
| Store.Authenticate | database.py:207-213 | the result is an account with that name whose verifier accepts the password; with unique names, there is none exactly when no such account passes the check |
| Store.AddUserKeepsUnique | database.py:15 | adding an account under an unused name keeps usernames unique |
| Store.Database.constructor | database.py:53-54 | a new database has three empty, valid tables |
| Store.Database.CreateDatabase | database.py:53-65 | seeds exactly the admin account, with admin role, when the user table is empty, and otherwise changes nothing; afterwards some account exists |
| Store.Database.CreateDatabaseTwice | database.py:53-65 | a second run adds nothing beyond the first |
| Store.Database.InsertStudent | database.py:69-85 | adds one student under a fresh id with the given columns, which lookup by that id returns; no other row changes; without a name nothing changes |
| Store.Database.UpdateStudent | database.py:118-131 | an unknown id returns None and changes nothing; otherwise only that student changes, to the update applied to it |
| Store.Database.DeleteStudent | database.py:134-144 | an unknown id returns false and changes nothing; otherwise removes the student and every attendance record of theirs, keeping the rest, and preserves "no orphan records" |
| Store.Database.RegisterEntry | database.py:148-156 | appends one open record under a fresh id, entered at the given instant (or now) on its date; existing records are untouched |
| Store.Database.RegisterExit | database.py:161-170 | an unknown id returns None and changes nothing; otherwise only that record's departure time is set, to the given instant (or now) |
| Store.Database.CreateUser | database.py:191-202 | refused, with nothing changed, exactly when the name is taken; otherwise adds one account under a fresh id; usernames stay unique |
| App.Session.constructor | app.py:26-27 | a new session has nobody logged in |
| App.Session.Login | app.py:29-34 | succeeds exactly when an account with that name passes the password check; then the session holds that account's id, name and role; on failure the session is unchanged, whichever of name or password was wrong |
| App.Session.Logout | app.py:36-37 | nobody is logged in afterwards, so user management is closed |
| App.BuildFilters | app.py:129-148 | a key is present exactly for each non-empty input; a picked 1970-01-01 is no bound; no key means no mapping; a student passes the mapping exactly when it satisfies every non-empty input |
| App.FirstOpen | app.py:255-259 | finds the first record of the listing without a departure time, or none exactly when every record has one |
| App.PressEntry | app.py:249-251 | always appends a new open record for the student for today, even when one is already open |
| App.PressExit | app.py:253-265 | with no open record of the student today nothing changes; otherwise it closes, at now, one open record of theirs from today that is not older than any other, and changes nothing else |
| App.EntryThenExitWhileOpen | app.py:246-265 | entry while earlier-entered records of the day are still open, then exit the same day, closes exactly the new record and leaves the earlier ones open |
| App.DayListing | app.py:253 | the day's listing for a student shows every record of that student and day |
| App.NoOpenInListing | app.py:253-265 | a day's listing with no open record means the student has no open record that day |
| App.FirstOpenNotOlder | app.py:255-259 | in a newest-first list, the first open record is not older than any other open record |
| App.FirstOpenIsLatest | app.py:253-259 | the first open record of the day's listing is a stored open record of that student and day, and no other one has a later entry |
| App.EntryThenExit | app.py:246-265 | entry then exit on the same day, with nothing open before, leaves exactly one new record, closed, with exit not before entry, and nothing open |
| App.SubmitUserForm | app.py:337-351 | refused unless a logged-in user has the admin role; then refused with nothing changed exactly when the name is taken; otherwise one account is added |

## Left out

- The Streamlit widgets and rendering, the pandas DataFrames, and the dashboard counts are not modelled. They are display only.
- The Excel export is not modelled. It is file and library I/O.
- The SQLAlchemy engine, sessions, commit/refresh and the SQLite file are not modelled. Each table is a map plus a counter for the next id.
- SQLite may reuse the id of a deleted row that had the largest id. The model always issues a fresh, larger id.
- The password hashing library is not modelled. The stored hash is passed in, and the check is a parameter about which nothing is assumed.
- The clock (`datetime.now()`, `date.today()`) is not modelled. It becomes the parameter `now`; the current date is `DateOf(now)`.
- The `%` and `_` wildcards of `ilike` are not modelled. `Text.ContainsIgnoringCase` is a plain substring test. A name filter containing those characters matches more in SQLite than in the model.
- Concurrency is not modelled: two simultaneous exits may close the same record.
- Python's dynamic typing is not modelled. The update mapping is a record with one optional value per column. Keys that are not columns, and the `id` key, are outside the model.
- Store.ListStudents: the order of an unordered `SELECT` is not fixed by SQLite. The model lists by increasing id, and a caller may rely only on which rows are listed.
- Store.FindUser: `.first()` of an unordered query is modelled as the account with the lowest id. With unique usernames there is only one candidate.
- Store.ListAttendance: entry times are kept to the microsecond, as the program stores them, so only records entered in the same microsecond tie. Records equal under `data DESC, hora_entrada DESC` come out in increasing id order here. SQLite does not fix that order, so the contract states only the key order and the permutation.
- Store.Database.RegisterEntry: SQLite does not enforce the foreign key from attendance to students (there is no `PRAGMA foreign_keys`). Entries for unknown students are accepted, so "no orphan records" is proved preserved only when the student exists.
- Store.Database.CreateUser: the default role `"user"` of `criar_usuario` is not modelled; the role is always passed in, as the user form does (app.py:347).
- Store.Database.InsertStudent: the missing-name case fails in the source with an integrity error from the NOT NULL constraint. The model returns `None` and changes nothing.
- App.PressEntry and App.PressExit: they require a selected student (`studentId != 0`). That mirrors the guard around both buttons.
- The reports page's own filter building and its export are not modelled. Only the search page's filter construction is part of this model.
