# VitalSync dashboard store, modelled in Dafny

VitalSync is a Flask health-tracking application. Its dashboard handlers in
`project/main.py` keep three kinds of per-user state:

- a daily task list of at most 15 tasks per user;
- an appointment planner;
- a one-time AI report about the user's condition.

This project models that state as a `Dashboard.Store` object. The object holds
the `DailyTask`, `PlannerItem` and `User` tables. Each table is a sequence of
rows, and every row carries its primary key and its owner's id. The store has
one method per handler. The logged-in user is passed to each method as `uid`.
A form field that is missing from the request is `None`.

Modules:

- `Wrappers`: `Option`.
- `Text`: Python's `str.strip()`. Its result is empty exactly when the text is
  all whitespace.
- `Table`: owner-scoped tables. Covers the per-user view
  (`filter_by(user_id=…)`), the lookup by id and owner (`filter_by(id=…,
  user_id=…).first()`), the scoped delete, and SQLite's choice of a new row id
  (one more than the largest id, or 1 in an empty table).
- `Tasks`: the `DailyTask` columns, the 15-task cap, the in-place toggle and
  the bulk reset.
- `Planner`: the `PlannerItem` columns, calendar dates, and the schema's NOT NULL constraint on
  `appointment_date`.
- `Report`: the write-once guard of `generate_report`. The generative service
  is a parameter: it either replies with some text or fails with an error
  message.
- `Dashboard`: the `Store` class. Its invariant `Valid()` says three things:
  - primary keys are unique;
  - no user owns more than 15 tasks;
  - every stored planner item has a date.

  Every handler keeps that invariant.

Each handler states its new state and the parts it leaves unchanged. The
properties that relate several calls are lemmas about the specification
functions (`ToggleDone`, `ResetDone`, `Remove`, `ReportAfter`). The client
methods at the end of `Dashboard` restate them for calls to the store.

How the code behaves where a plain reading might expect otherwise:

- An empty reply from the generative service is stored as `""`. That value is
  falsy, so the next `generate_report` call generates again. The report is
  write-once only after a non-empty text has been stored. Error texts are never
  empty, so a failed generation is kept for good and never retried.
- The routes take any non-negative integer as an id. An id above 2^63 - 1
  cannot be passed to SQLite, so the lookup raises and the handler answers 500.
- The `condition` guard uses Python truthiness. A condition of `"  "` is truthy,
  while `None` and `""` are not.

## Model

| member | source | states |
|---|---|---|
| `Text.Strip` | project/main.py:57 | `text.strip()` is empty exactly when `text` is whitespace only; a non-empty result starts and ends with a non-space character and is `text` with a whitespace prefix and suffix cut off |
| `Text.IsSpace` | project/main.py:57 | the whitespace `strip()` removes is Python's `str.isspace` set: among ASCII, space, tab to carriage return and 0x1C to 0x1F, and never a letter or digit |
| `Table.Owned` | project/main.py:16-17 | a user's view holds exactly the table's rows owned by that user, and no more rows than the table |
| `Table.OwnedConcat` | project/main.py:16-17 | the view of two tables laid end to end is the first view followed by the second, which with `OwnedAppend` fixes the view as the user's rows in table order |
| `Table.Count` | project/main.py:75 | `filter_by(user_id=…).count()` never exceeds the table's size |
| `Table.CountZero` | project/main.py:75 | a user's count is zero exactly when the user owns no row |
| `Table.CountAppend` | project/main.py:75-77 | inserting a row raises its owner's count by one and leaves every other count unchanged |
| `Table.NextId` | project/models.py:18 | a new row's id exceeds every id in the table and is one more than the largest id, or 1 in an empty table |
| `Table.Find` | project/main.py:84 | the lookup by id and owner finds nothing exactly when no row has that id and that owner; otherwise it gives the first such row |
| `Table.Remove` | project/main.py:84-85 | after a scoped delete the table keeps exactly the rows that do not have both the given id and the caller as owner |
| `Table.RemoveMissing` | project/main.py:84 | deleting an id the caller does not own leaves the table unchanged |
| `Table.RemoveAt` | project/main.py:84-85 | with unique ids, the scoped delete removes just the row the lookup found |
| `Table.UniqueIdsWithout` | project/models.py:18 | removing a row keeps primary keys unique |
| `Table.OwnedAppend` | project/main.py:76-77 | inserting a row adds it to its owner's view and to no other user's |
| `Table.RemoveLeavesOthers` | project/main.py:84-85 | a delete scoped to the caller leaves every other user's rows unchanged |
| `Table.RemoveCount` | project/main.py:84-85 | a delete never raises any user's row count |
| `Tasks.AppendKeepsCap` | project/main.py:75-77 | inserting a task for a user who owns fewer than 15 keeps every user at 15 or fewer and raises that user's count by one |
| `Tasks.Flip` | project/main.py:93 | `task.done = not task.done` negates `done` and keeps the row's id, owner and text |
| `Tasks.ToggleDone` | project/main.py:92-93 | toggling keeps the table's length and flips `done` on the rows with the given id and owner, and only on them |
| `Tasks.ToggleMissing` | project/main.py:92 | toggling an id the caller does not own leaves the table unchanged |
| `Tasks.ToggleAt` | project/main.py:92-93 | with unique ids, toggling changes only the row the lookup found |
| `Tasks.ToggleTwice` | project/main.py:93 | toggling the same task twice restores the original table |
| `Tasks.ToggleLeavesOthers` | project/main.py:92-93 | a toggle leaves other users' tasks unchanged and changes no user's task count |
| `Tasks.ResetDone` | project/main.py:100 | the bulk reset clears `done` on every task of the caller, keeps each task's id, owner and text, and leaves other users' rows as they were |
| `Tasks.ResetTwice` | project/main.py:100 | resetting twice equals resetting once |
| `Tasks.ResetLeavesOthers` | project/main.py:100 | a reset leaves other users' tasks unchanged and changes no user's task count |
| `Report.Truthy` | project/main.py:29 | a nullable string column is falsy exactly when it is None or the empty string |
| `Report.ReportText` | project/main.py:44-49 | a reply is stored as it is; after a failure the stored text starts with the fixed apology; the text is empty only for an empty reply |
| `Report.ReportAfter` | project/main.py:29-50 | the user row changes only when no report is stored and a condition is set, and then only the report changes, to the reply or error text; the condition is never changed |
| `Report.ReportWrittenOnce` | project/main.py:29 | once a non-empty report is stored, later calls leave the user row unchanged |
| `Report.FailureIsKept` | project/main.py:48-49 | after a failed generation the error text is stored and later calls keep it |
| `Report.EmptyReplyRetried` | project/main.py:46 | an empty reply leaves the guard open, so the next call behaves as if no call had been made |
| `Planner.DaysInMonth` | project/models.py:20 | a month of a `db.Date` has 30 days for April, June, September and November; 29 for February of a leap year; 28 for other Februaries; 31 otherwise |
| `Planner.SchemaAccepts` | project/models.py:20 | the NOT NULL rule on `appointment_date` accepts a row exactly when its date is present |
| `Planner.ItemFromForm` | project/main.py:58 | the row `add_item` builds has the caller as owner and the given text, but no appointment date, so the schema rejects it |
| `Dashboard.Store.Home` | project/main.py:13-18 | the dashboard lists exactly the caller's tasks and items, as many as the caller owns, in table order |
| `Dashboard.Store.AddTask` | project/main.py:71-79 | a missing form field answers 500 and changes nothing; otherwise a task owned by the caller, not done, with the next id is appended exactly when the text is not blank and the caller owns fewer than 15 tasks; other users' tasks and the planner do not change, and no user exceeds 15 tasks |
| `Dashboard.Store.DeleteTask` | project/main.py:81-87 | an id above SQLite's largest integer (2^63 - 1) answers 500; otherwise it answers 404 exactly when the caller owns no task with that id; in both cases nothing changes; otherwise exactly that task is removed; other users' tasks do not change |
| `Dashboard.Store.ToggleTask` | project/main.py:89-95 | an id above SQLite's largest integer (2^63 - 1) answers 500; otherwise it answers 404 exactly when the caller owns no task with that id; in both cases nothing changes; otherwise `done` is flipped on exactly that task; other users' tasks do not change |
| `Dashboard.Store.ResetTasks` | project/main.py:97-102 | every task of the caller ends not done, other users' tasks do not change, and the answer is a redirect |
| `Dashboard.Store.InsertItem` | project/main.py:58-60 | committing a planner item succeeds exactly when it has an appointment date and then appends it; a failed commit stores nothing |
| `Dashboard.Store.AddItemAsWritten` | project/main.py:53-61 | as written, `add_item` never stores an item: blank text redirects, and anything else answers 500 |
| `Dashboard.Store.AddItem` | project/main.py:53-61 | with the date supplied: a missing field answers 500; otherwise one item owned by the caller is appended exactly when the text is not blank; other users' items and the tasks do not change |
| `Dashboard.Store.DeleteItem` | project/main.py:63-69 | an id above SQLite's largest integer (2^63 - 1) answers 500; otherwise it answers 404 exactly when the caller owns no item with that id; in both cases nothing changes; otherwise exactly that item is removed; other users' items do not change |
| `Dashboard.Store.GenerateReport` | project/main.py:25-51 | only the caller's user row can change, and only as `ReportAfter` says; with a report stored nothing changes; with a condition set and no report stored, a failure leaves a non-empty report |
| `Dashboard.ToggleTwiceRestores` | project/main.py:89-95 | two toggle requests for the same id restore every table |
| `Dashboard.ResetTwiceIsResetOnce` | project/main.py:97-102 | two reset requests leave the task table as one does, and the users and planner items as they were |
| `Dashboard.ReportWrittenAtMostOnce` | project/main.py:25-51 | the two requests never touch tasks or planner items; after a first request that stores a non-empty report, the second changes nothing, whatever the service would answer |

## Left out

- Flask routing, templates, redirects and the `flask_login` decorators are not modelled. The logged-in user is the `uid` parameter. `generate_report` requires that this user exists, which `login_required` guarantees.
- The Gemini client and its prompt are not modelled. The service call is the `Generation` parameter: a reply text, or the message of the exception it raised.
- The SQLAlchemy session is replaced by the store's fields. Transactions, rollback and concurrent requests are not modelled. A handler that fails with a 500 stores nothing.
- Report.ReportAfter: the model does not cover a second commit failing inside the `except` branch.
- Table.Owned: the query `.all()` has no `ORDER BY`, so the source fixes no order for the dashboard lists. The model returns the rows in table order.
- Table.NextId: the model does not cover the largest possible rowid, where SQLite picks a random unused id instead.
- Column lengths (`String(100)`, `String(200)`) are not modelled. SQLite does not enforce them.
- `DailyTask` is not declared in `project/models.py`. Its columns (`id`, `text`, `done`, `user_id`) come from how `project/main.py` uses it. A new task is assumed to start with `done` false.
- Only the `User` columns the report guard uses are modelled: `condition` and `ai_report`. Registration, login and password hashing in `project/auth.py` are not modelled, so the set of users is fixed when the store is built. The background report thread started at registration is not modelled either. It targets `generate_report_in_background`, which is not part of this model.
- `project/static/chat.js` (UI) and `project/__init__.py` (configuration) are not modelled.
- Chat, vitals charts, nutrition lookup, meal planning and PDF export have no code in these files and are not part of this model.
- Dashboard.Store.AddItem: takes an appointment date that the handler as written never reads (see Findings).

## Findings

| source | as written | input that shows it | evidently intended | confidence | as-written member | corrected member |
|---|---|---|---|---|---|---|
| project/main.py:58 | `add_item` builds a `PlannerItem` without `appointment_date`, a column that project/models.py:20 declares NOT NULL. The commit fails, the request answers 500 and no item is stored. | POST `/add_item` with `item=Dentist` | store the item together with its appointment date | medium, not executed (the two files may come from different revisions) | `Dashboard.Store.AddItemAsWritten`, `Planner.ItemFromForm` | `Dashboard.Store.AddItem` |
