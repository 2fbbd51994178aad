# Budget projects repository: a verified model of the persistence layer

The application keeps capital projects, their budget lines (CAPEX or
OPEX, amounts in cents) and a feed of news items per project in a SQLite
database reached through SQLAlchemy. This project models that persistence
layer, `app/db/models.py` and `app/db/repo.py`, in Dafny and proves what
those two files promise.

- `text.dfy` (module `PyText`): the Python string services the layer
  uses. These are `str.strip()`, `str(int)`, and `repr()` of a `str`.
- `ordering.dfy` (module `Ordering`): how SQLite picks the id of a new
  row (one more than the largest id in the table, or 1). It also holds
  the `ORDER BY created_at` queries, written as an insertion sort over
  the rows in id order.
- `models.dfy` (module `Models`) models `app/db/models.py`. It holds the three
  row kinds, the constructor defaults and the nullable columns. It
  defines `getattr`/`setattr` by column name, the errors a flush can
  raise, and `BudgetLine.__repr__`.
- `store.dfy` (module `Store`): the database as one value `Tables`.
  - It has three maps keyed by id and a clock that stamps writes.
  - `Valid` is the integrity the schema declares: keys match ids, codes
    are unique, foreign keys resolve, each project and budget line is stamped
    before the clock, and news text is stored stripped.
  - `InSession` is `get_session`: commit on return, rollback on an
    exception.
  - Each repository function is a function from the store before to a
    `Step`, which is what the caller gets (a value or an exception)
    together with the store after.
- `properties.dfy` (module `StoreProperties`): properties that relate
  several calls.
- `database.dfy` (module `Repo`): class `Database`, the store as mutable
  fields.
  - Each repository call is a method that changes the fields in place.
  - The `setattr` loop of `update_project` and the `add_all` of the demo
    seed are loops with invariants.
  - Each method is proved to return exactly the outcome, and leave
    exactly the store, that the `Store` function gives.
- `findings.dfy` (module `Findings`): two places where the code as
  written departs from what its declarations promise (see Findings).

Modelling decisions:
- Row ids follow SQLite's `INTEGER PRIMARY KEY` without `AUTOINCREMENT`,
  so an id freed by a delete of the largest row is handed out again.
- Timestamps (`func.now()`, `datetime.utcnow()`) are readings of a
  counter that every inserted row, and every update that changes a
  project, advances. `create_project_news` may be given its own
  `created_at`.
- The `ORDER BY` queries are an insertion sort over the rows in id order.
  Only its sortedness and the permutation are stated; SQL leaves the
  order of rows with equal timestamps open, and so does the model (see
  `Store.ListBudgetLines` under Left out).
- `update_project(**fields)` takes its keyword arguments as a sequence of
  (name, value) pairs.
- Floats and JSON documents are opaque values that the layer only stores.
- `create_project_news` stores whatever `strip()` leaves, including an
  empty text (app/db/repo.py:136).
- A missing project is reported three ways: `None` from
  `add_budget_line`/`update_project`, `False` from `delete_project`, and
  `ValueError` from `create_project_news`.

## Model

| member | source | states |
|---|---|---|
| PyText.Strip | app/db/repo.py:136 | `strip()` never lengthens a text and leaves no white space at either end |
| PyText.StripIdempotent | app/db/repo.py:153 | stripping an already stripped text changes nothing |
| PyText.StripBounds | app/db/repo.py:136 | the stripped text is the slice of the input that has only white space before and after it |
| PyText.StripIgnoresPadding | app/db/repo.py:136 | white space added around a text does not change what `strip()` returns |
| PyText.Decimal | app/db/models.py:79 | `str(n)` is a non-empty string of digits with no leading zero |
| PyText.DecimalRoundTrip | app/db/models.py:79 | reading the digits of `str(n)` back gives `n` |
| PyText.SignedDecimalRoundTrip | app/db/models.py:78-79 | `{sign}{abs(n)}` starts with "-" exactly when n < 0 and reads back as n |
| PyText.PyRepr | app/db/models.py:79 | `repr(label)` is enclosed in the same quote character at both ends |
| Ordering.NextRowId | app/db/models.py:32 | a new row id is unused and larger than every id in the table: 1 on an empty table, otherwise the largest id plus one |
| Ordering.AscendingSpec | app/db/repo.py:65 | the ids of a table are enumerated each exactly once, in increasing order |
| Ordering.SortBySpec | app/db/repo.py:110 | the sort used for `ORDER BY` returns a sorted permutation of its input |
| Ordering.Select | app/db/repo.py:107-111 | a filtered, ordered query is sorted by its key, holds exactly the rows owned by the given id, and has one entry per such row |
| Ordering.SelectAll | app/db/repo.py:65 | an unfiltered ordered query is sorted and holds each row of the table, once |
| Ordering.SelectInsert | app/db/repo.py:124-127 | after one more owned row is inserted, the query lists that row and is one longer |
| Models.NewProjectFields | app/db/models.py:32-50 | `Project(...)` puts each of its sixteen keywords in the column of the same name, as `getattr` reads it back (stated by `Models.NewProjectKeywords`) |
| Models.NewProjectKeywords | app/db/models.py:32-50 | each of the sixteen keywords given to `Project(...)` is read back by `getattr` from the column of that name |
| Models.NewProjectDefaults | app/db/models.py:32-50 | a project built from code and name alone has the three flags false and every nullable column NULL |
| Models.NewBudgetLine | app/db/models.py:64-70 | a new budget line has the given id and project, and its `created_at` and `updated_at` are both the moment of insertion |
| Models.NewBudgetLineDefaults | app/db/models.py:67-70 | a budget line built without them is CAPEX, has amount 0 and has no value date |
| Models.GetColumn | app/db/repo.py:76-77 | `getattr` of a column returns a value the column can hold: never None for a NOT NULL column, always of the column's kind |
| Models.HasAttribute | app/db/repo.py:76 | `hasattr` is true of the store-managed attributes (`id`, the timestamps, `budget_lines`), none of which is a column a patch may set |
| Models.FirstRaised | app/db/repo.py:78 | of two errors pending in one flush, the one raised is one of them and comes no later in the flush order: the errors of the `Date`, `Boolean`, `Float` and `JSON` converters in column order, then the driver's bind errors for `String` and `Text` columns in column order, then the NOT NULL checks in column order |
| Models.SetColumn | app/db/repo.py:77 | `setattr` makes `getattr` of that column return the value and leaves every other column as it was |
| Models.ColumnsDetermineRecord | app/db/models.py:32-50 | two project records that agree on every column are equal |
| Models.LineRepr | app/db/models.py:77-79 | the repr starts with `<BudgetLine id=`, is longer than that prefix and the id, and ends with `>` |
| Models.LineReprShowsAmount | app/db/models.py:77-79 | the amount in the repr starts with "-" exactly when `amount_cents` < 0, reads back as `amount_cents`, and is followed by "c" |
| Store.EmptyIsValid | app/db/repo.py:11-13 | a newly created schema satisfies every integrity rule |
| Store.InSession | app/db/repo.py:16-26 | the caller gets the body's outcome; when the body returns, its store is committed, and when it raises, the store before is restored |
| Store.GetProject | app/db/repo.py:67-69 | `get_project` returns the stored row for a known id and None for an unknown one |
| Store.ListProjects | app/db/repo.py:63-65 | every stored project is listed once, newest first |
| Store.ListBudgetLines | app/db/repo.py:105-112 | exactly the lines of the project are listed, once each, oldest first |
| Store.ListProjectNews | app/db/repo.py:115-128 | exactly the news items of the project are listed, once each, newest first |
| Store.ProjectRowValid | app/db/models.py:30 | inserting a project whose code is free keeps the store consistent |
| Store.CreateProject | app/db/repo.py:29-61 | `create_project` raises `UniqueViolation` exactly when the code is in use, and then nothing is stored. Otherwise it adds exactly one project, with a fresh, larger id and the given fields, and changes nothing else. Consistency is kept |
| Store.ApplyPatch | app/db/repo.py:75-78 | the error a patched record's flush will raise is a converter error, a driver bind error or a NOT NULL error, and when there is none every supplied column value fits its column |
| Store.PatchStep | app/db/repo.py:75-77 | one item of the loop: a key that is not a column changes nothing; a value that fits leaves the pending error as it was; a value that does not fit leaves the record as it was and keeps, of its error and the pending one, the one the flush meets first |
| Store.PatchKeepsUnsupplied | app/db/repo.py:75-77 | a column the keyword arguments do not name keeps its value |
| Store.UpdateProject | app/db/repo.py:71-79 | An unknown id returns None and changes nothing. Otherwise the call raises exactly when a value does not fit its column or the new code belongs to another project, and then rolls back; it raises the patch's first flush error when there is one, and `UniqueViolation` on `code` otherwise. On success only that project changes, to the patched fields, keeping its `created_at`; `updated_at` moves only when a column changed. Consistency is kept |
| Store.ProjectEditValid | app/db/models.py:30 | rewriting a project under its own id with a code no other project holds keeps the store consistent |
| Store.DeleteProject | app/db/repo.py:81-86 | An unknown id returns False and changes nothing. Otherwise the call returns True and removes the project, and exactly its lines and its news. Every other row is kept unchanged. Consistency is kept |
| Store.Cascade | app/db/models.py:55 | after the cascade the project is gone, no line or news item refers to it, every other line and news item is kept unchanged, and the clock does not move |
| Store.CascadeValid | app/db/models.py:55 | removing a project together with its lines and news keeps every foreign key resolved |
| Store.AddBudgetLine | app/db/repo.py:89-103 | A missing project returns None and changes nothing. An amount outside 64 bits raises and rolls back. Otherwise exactly one line is added, with the given label, amount, CAPEX flag and value date, under the project, with a fresh id; nothing else changes |
| Store.CreateProjectNews | app/db/repo.py:130-146 | A missing project raises `ProjectNotFound` and changes nothing. Otherwise exactly one news item is added, with the stripped text and the given or current time |
| Store.NewsRowValid | app/db/repo.py:134-138 | a news row under a stored project keeps the store consistent, stripped text included |
| Store.UpdateProjectNews | app/db/repo.py:148-155 | An unknown id returns False and changes nothing. Otherwise the call returns True, and only that item's text changes, to the stripped new text |
| Store.NewsEditValid | app/db/repo.py:153 | replacing a news text by a stripped text keeps the store consistent |
| Store.DeleteProjectNews | app/db/repo.py:156-162 | an unknown id returns False and changes nothing; otherwise the call returns True and exactly that item goes |
| Store.AddLines | app/db/repo.py:172-176 | `add_all` of lines leaves the projects and the news as they were and advances the clock once per line |
| Store.AddLinesValid | app/db/repo.py:172-176 | adding lines under a stored project keeps the store consistent |
| Store.AddLinesEffect | app/db/repo.py:172-176 | `add_all` keeps the projects, the news and every earlier line, and adds one line per draft |
| Store.AddLinesNew | app/db/repo.py:172-176 | every line `add_all` adds belongs to the project and is made from one of the drafts |
| Store.AddLinesCover | app/db/repo.py:172-176 | every draft becomes a new line of the project |
| Store.SeedDemoIfEmpty | app/db/repo.py:166-176 | When a project exists, nothing changes. Otherwise exactly one project, the demo one, is added, with one line per demo draft; the news stay as they were. Consistency is kept |
| StoreProperties.CreateThenGet | app/db/repo.py:29-69 | a project created with a free code can be read back by its id, with the given fields |
| StoreProperties.DuplicateCodeRejected | app/db/models.py:30 | creating a project with a code already in use raises and leaves the store as it was |
| StoreProperties.CreatedProjectListedFirst | app/db/repo.py:63-65 | a newly created project heads the project list, followed by the earlier list unchanged |
| StoreProperties.PatchSetsSupplied | app/db/repo.py:75-77 | every supplied column whose value fits ends up holding that value |
| StoreProperties.PatchFailsWithFirstFlushError | app/db/repo.py:75-78 | the flush fails if and only if some supplied value does not fit its column; the error raised belongs to such a value and is the one the flush meets first: errors of the `Date`, `Boolean`, `Float` and `JSON` converters in column order, then driver bind errors of `String` and `Text` columns in column order, then NOT NULL violations in column order |
| StoreProperties.FloatConverterInColumnOrder | app/db/repo.py:75-78 | `update_project(id, cir_montant={...}, subvention="oui")` raises the `float()` error of `cir_montant` (column 9) before the `Boolean` error of `subvention` (column 10) |
| StoreProperties.ConverterErrorBeforeDriverError | app/db/repo.py:75-78 | `update_project(id, owner={...}, start_date="2025-01")` raises the `Date` converter's error for `start_date`, not the driver's bind error for the document in `owner` |
| StoreProperties.BindErrorBeforeNotNull | app/db/repo.py:75-78 | `update_project(id, code=None, start_date="2025-01")` raises the wrong-kind error of `start_date`, not the NOT NULL error of `code` |
| StoreProperties.KnownOnly | app/db/repo.py:76 | keeps exactly the items whose key names a column |
| StoreProperties.PatchIgnoresUnknown | app/db/repo.py:76 | keys that name no attribute of `Project` have no effect |
| StoreProperties.UpdateThenGet | app/db/repo.py:71-79 | after a successful update, each supplied column reads back as supplied and every other column is unchanged |
| StoreProperties.UpdatedRecordDetermined | app/db/repo.py:71-79 | after a successful update the stored record is exactly the one holding each supplied value in its column and the old value in every other column |
| StoreProperties.DeleteCascade | app/db/repo.py:81-86 | after a delete, the project is gone, its lists of lines and news are empty, and deleting it again returns False |
| StoreProperties.CascadeKeepsLines | app/db/repo.py:81-86 | the cascade leaves the line list of every other project unchanged |
| StoreProperties.CascadeKeepsNews | app/db/repo.py:81-86 | the cascade leaves the news list of every other project unchanged |
| StoreProperties.DeleteKeepsOtherProjects | app/db/repo.py:81-86 | a delete does not change any other project, its lines or its news |
| StoreProperties.SameLinesListed | app/db/repo.py:105-112 | two stores that agree on a project's lines list the same lines for it |
| StoreProperties.SameNewsListed | app/db/repo.py:115-128 | two stores that agree on a project's news list the same news for it |
| StoreProperties.UnknownProject | app/db/repo.py:92-93 | a missing project has no lines and no news, and `add_budget_line` on it returns None and changes nothing |
| StoreProperties.AddedLineListedLast | app/db/repo.py:105-112 | a new line comes last in its project's list, after the earlier list unchanged; the other projects' lists do not change |
| StoreProperties.NewsPaddingIgnored | app/db/repo.py:136 | creating or editing news with white space around the text has the same effect as without it |
| StoreProperties.RewriteNewsKeepsStore | app/db/repo.py:148-155 | writing a news item's own text back leaves the store exactly as it was |
| StoreProperties.CreatedNewsListed | app/db/repo.py:130-146 | a created news item is listed under its project, and the list grows by one |
| StoreProperties.DeletedNewsUnlisted | app/db/repo.py:156-162 | a deleted news item is no longer listed under its project |
| StoreProperties.SeedOnEmpty | app/db/repo.py:166-171 | seeding an empty database leaves exactly one project, with the demo fields and the code PRJ-2025-001 |
| StoreProperties.SeedLinesListed | app/db/repo.py:172-176 | the demo project then lists exactly as many lines as there are demo drafts, each made from one of them |
| StoreProperties.SeedLinesOwned | app/db/repo.py:172-176 | seeding a store with no projects and no lines: the demo project lists one line per demo draft, each made from one of them |
| StoreProperties.SeedLinesCovered | app/db/repo.py:172-176 | every demo draft (12000000 CAPEX, 8000000 CAPEX, 1500000 OPEX) is listed under the demo project |
| StoreProperties.SeedIdempotent | app/db/repo.py:168-169 | seeding a second time changes nothing |
| StoreProperties.AtMostOneWithCode | app/db/models.py:30 | in a consistent store, at most one project has a given code |
| StoreProperties.SeedTimesOnce | app/db/repo.py:166-169 | running the seed any number n >= 1 of times in a row leaves the store of one run |
| StoreProperties.SeedTimesValid | app/db/repo.py:166-176 | any number of runs of the seed keeps a consistent store consistent |
| StoreProperties.DemoAtMostOnce | app/db/repo.py:166-176 | after any number n of runs of the seed on a consistent store, at most one project has the demo code |
| StoreProperties.NewDatabaseSession | app/db/repo.py:29-112 | on a new database the first project gets id 1, a line added to it is listed, and deleting the project empties its line list |
| Repo.Database.constructor | app/db/repo.py:11-13 | a new database is empty and consistent |
| Repo.Database.CreateProject | app/db/repo.py:29-61 | the in-place insert, with rollback on a duplicate code, gives exactly `Store.CreateProject` and keeps the store consistent |
| Repo.Database.UpdateProject | app/db/repo.py:71-79 | the `setattr` loop over the items, then the flush, gives exactly `Store.UpdateProject` and keeps the store consistent |
| Repo.Database.DeleteProject | app/db/repo.py:81-86 | the in-place cascade gives exactly `Store.DeleteProject` and keeps the store consistent |
| Repo.Database.AddBudgetLine | app/db/repo.py:89-103 | the in-place insert gives exactly `Store.AddBudgetLine` and keeps the store consistent |
| Repo.Database.CreateProjectNews | app/db/repo.py:130-146 | the in-place insert gives exactly `Store.CreateProjectNews` and keeps the store consistent |
| Repo.Database.UpdateProjectNews | app/db/repo.py:148-155 | the in-place edit gives exactly `Store.UpdateProjectNews` and keeps the store consistent |
| Repo.Database.DeleteProjectNews | app/db/repo.py:156-162 | the in-place removal gives exactly `Store.DeleteProjectNews` and keeps the store consistent |
| Repo.Database.SeedDemoIfEmpty | app/db/repo.py:166-176 | the demo project, then one insert per demo line in a loop, leaves exactly the store `Store.SeedDemoIfEmpty` describes, and keeps it consistent |
| Findings.TeamKeywordAlwaysRaises | app/db/repo.py:57 | as written, `create_project` raises `TypeError` and stores nothing for every store and every argument; the intended call stores the project whenever its code is free |
| Findings.OrphanedNewsResurface | app/db/models.py:85 | as written: on a new database the seed adds the demo project (id 1), a news item is posted under it, the project is deleted, and the next seed's demo project takes id 1 again and lists the old news item |
| Findings.SeedTakesFirstId | app/db/repo.py:166-171 | seeding a store with no project gives the demo project id 1 and leaves the news unchanged |
| Findings.OnlyNewsListed | app/db/repo.py:115-128 | a store whose only news item is `x` lists exactly `[x]` under `x`'s project |
| Findings.NewProjectStartsEmpty | app/db/models.py:85 | with the declared cascade, a newly created project lists no news and no lines |

## Left out

- The user interface (`app/ui/`), `app/main.py` and `reset_db.py`: they only call the repository.
- The engine and session configuration (`DB_URL`, `check_same_thread`, `expire_on_commit`): there is one database and one caller at a time. Threads, detached objects and connection handling are not modelled.
- Wall-clock time: `func.now()` and `datetime.utcnow()` are a counter. Real clocks can give two writes the same second, and then the list order of those rows is not fixed.
- Store.ListBudgetLines: rows with equal `created_at` are listed in id order. SQL leaves their relative order open.
- StoreProperties.SeedLinesListed: only membership and count are stated for the seeded lines. All three rows get the same `func.now()` in one statement, so the source does not fix their order.
- `created_at.isoformat()` and the dict shape returned by `list_project_news`/`create_project_news`: the model returns the row itself.
- Floating point and JSON: `cir_montant`, `subvention_montant`, `investissement`, `themes` and `images` are opaque values that are stored and read back.
- String lengths (`String(32)`, `String(255)`, `String(64)`): SQLite does not enforce them, so neither does the model.
- SQLite's choice of a random row id once the largest id reaches 2^63 - 1 is not modelled.
- PyText.PyRepr: only the quoting is stated. The escaping of non-printable characters outside ASCII is not modelled.
- `Project.__repr__` (app/db/models.py:57-58) is only used for debugging and is not modelled.
- Store.UpdateProject: it requires that no key names `id`, `created_at`, `updated_at` or `budget_lines`. Setting those through `update_project` is not modelled; the application never passes them.
- Store.UpdateProject: a value is accepted only if it has the column's own kind; any other value makes the flush raise `WrongType` (columns with a converter) or `Unbindable` (the others), and None in a NOT NULL column raises `NotNullViolation`. SQLAlchemy's coercions (an `int` or numeric text converted by `float()` for a `Float` column, for example) are not modelled.
- Store.CreateProject: the columns are typed, so the typing errors of the constructor's arguments are not modelled. The `team=` argument is covered under Findings.
- Store.ApplyPatch: some values of another kind are accepted by the source: SQLite's column affinity stores a date or a number given for a `String` or `Text` column, the `Float` converter `float()` turns numeric text and bools into a float, and the `JSON` converter accepts any serialisable value. The model rejects every value that is not of the column's own kind. In the source as in the model, `float()` raises on other text and on documents, and the driver rejects a document in a `String` or `Text` column.
- Models.Id: ids are natural numbers, so a negative id (which finds nothing in the source) cannot be passed, and an id of 2^63 or more makes the driver raise `OverflowError`, which the model does not represent.
- Models.HasAttribute: `hasattr(Project, k)` is also true of class attributes that are not mapped (`metadata`, `registry`, `__tablename__`, `__class__`, ...), which `setattr` would then rebind; the model treats such keys as unknown and ignores them. The application never passes them.
- Store.AddBudgetLine: `label` is a Python `str`, so passing None for it is not modelled.

## Findings

| source | as written | input that shows it | evidently intended | confidence | as-written member | corrected member |
|---|---|---|---|---|---|---|
| app/db/repo.py:57 | `create_project` passes `team=team` to `Project(...)`, which maps no `team` attribute, so the declarative constructor raises `TypeError` on every call | any call, e.g. `create_project("PRJ-X", "Test")` | build the project from its mapped columns only and store it | high, not executed | Findings.CreateProjectAsWritten | Store.CreateProject |
| app/db/models.py:85 | `ON DELETE CASCADE` on `project_news.project_id` has no effect, because SQLite enforces foreign keys only after `PRAGMA foreign_keys=ON`, which the engine never issues. `delete_project` therefore leaves that project's news behind | on a new database: `seed_demo_if_empty()` (demo project, id 1), `create_project_news(1, text)`, `delete_project(1)`, `seed_demo_if_empty()` again (new demo project, id 1 again), then `list_project_news(1)` shows the old item | the project's news are deleted with it, so a new project starts with no news | medium, not executed | Findings.DeleteProjectAsWritten | Store.DeleteProject |
