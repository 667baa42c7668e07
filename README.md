# To-do list application: a Dafny model of `ToDoApp`

This is a model of the business core of a single-file Streamlit to-do list, `to-do-list.py`. The core is the `ToDoApp` class.
- It keeps three SQLite tables:
  - `users(username, password, email, pushover_key)`
  - `todo(username, task, status, date, favorite, category, priority, recurring)`, addressed by SQLite's `rowid`
  - `login_history(username, login_time)`
- It offers operations to sign up and log in.
- It can add, list, search, edit and delete tasks.
- Its method `update_task_status` rolls a recurring task forward when it is marked "done". No page calls that method, as described below.
  - "Daily" adds 1 day.
  - "Weekly" adds 7 days.
  - "Monthly" adds 30 days.
- A "Send Reminders" sweep handles every task due today whose owner has a user row. It emails that owner, and sends a Pushover push only when the owner's key is not empty.

Files, one module each (plus one module of worked examples):

| file | module | contents |
|---|---|---|
| `wrappers.dfy` | `Wrappers` | `Option`, `Result`, `Outcome` |
| `text.dfy` | `Text` | ASCII lower-casing (`str.lower` / SQLite `LIKE` folding), substring |
| `dates.dfy` | `Dates`, `DateExamples` | proleptic Gregorian dates, `strptime("%Y-%m-%d")`, day arithmetic with `OverflowError` past 9999-12-31, `strftime`, `compute_next_date` |
| `forms.dfy` | `Forms` | the add-task title check `task.strip()` and the sign-up email regex `[^@]+@[^@]+\.[^@]+` |
| `tables.dfy` | `Tables` | rows, SQLite `LIKE`, the `SELECT ... WHERE` scans in rowid order, user lookups, `update_task_status` as a function on the table |
| `app.dfy` | `App` | class `ToDoApp`: the three tables as fields and every operation as a method |
| `reminders.dfy` | `Reminders` | the reminder sweep, with each SMTP/Pushover attempt recorded as a `Notice` |
| `scenarios.dfy` | `Scenarios` | two call sequences on a new `ToDoApp`, verified from the methods' contracts alone, and two status updates on concrete recurring tasks |

Each method of `ToDoApp` that writes commits before it returns, and the others only read, so each method is one step on the fields `users`, `todo`, `loginHistory` and `nextRowid`.
- `nextRowid` is the rowid the next `INSERT` receives.
- The class invariant `Valid()` says every stored rowid lies below `nextRowid`.
- The scans run over rowids `1 .. nextRowid-1` in increasing order. That is the order SQLite returns rows from a full scan of a rowid table.

`update_task_status` is modelled twice: as the function `Tables.StatusUpdate` and as the method `App.ToDoApp.UpdateTaskStatus`, which is proved equal to it. The first `UPDATE ... SET status=?` is committed before the date is parsed, so a failure afterwards leaves "Done" in place.

Several parts of the system are parameters of the model, not things it reads itself:
- The clock: the time `log_login` records, and today's date for `get_due_tasks`.
- The date picked in the add-task form, given as a `Date`.
- Mail and push delivery: the sweep returns the list of deliveries it attempts.

Behaviour of the code that the model keeps, where an informal reading of the application might expect otherwise:
- Nothing in `to-do-list.py` calls `update_task_status` (line 65), so no page rolls a task over. The pages mark a task Done only through the edit form's Update button (lines 199-200). That button calls `update_task`, which stores "Done" and keeps the old date. `Tables.StatusUpdate` and `App.ToDoApp.UpdateTaskStatus` model a method that no page reaches. `App.ToDoApp.UpdateTask` models what the Update button does.
- `add_user` does not reject an existing username, so signing up twice keeps both rows, and `login_user` returns both (`Tables.DuplicateSignup`, `Scenarios.DuplicateSignupScenario`).
- `get_user_email_key` returns the contact of the *first* row with that username. It returns nothing for an unknown name, and the sweep then skips that task.
- The reminder email is attempted whatever the stored address is. Only the push is skipped, and only for an empty key.
- The pages format a picked date as `YYYY-MM-DD` before they pass it on (lines 184 and 200). The methods `add_task` and `update_task` store whatever date text they get.
- `compute_next_date` parses the date before it looks at the rule. An unparsable date fails even for a rule it does not know.
- A known rule whose result would pass 9999-12-31 fails with `OverflowError`, after the "Done" write has been committed.
- Marking a missing rowid "done" fails where the code unpacks `fetchone()` (`NoSuchRow`). Marking it anything else changes nothing.
- `search_tasks` passes the query into `LIKE` unescaped, so `%` and `_` in a query act as wildcards. Only a query without them means "contains, ignoring ASCII case" (`Tables.SearchPatternIsSubstring`).

## Model

| member | source | states |
|---|---|---|
| Dates.OrdinalInjective | to-do-list.py:78-81 | two valid dates with the same day number are the same date, so day arithmetic on ordinals determines the calendar date |
| Dates.OrdinalRange | to-do-list.py:78-81 | every valid date has day number between 1 and 3652059, and reaches 3652059 only at 9999-12-31 (Python's `date.max`) |
| Dates.NextDay | to-do-list.py:79 | the day after a valid date other than 9999-12-31 is valid and exactly one day number later |
| Dates.AddDays | to-do-list.py:79-81 | `dt + timedelta(days=n)` succeeds exactly when the day number stays within 9999-12-31; it then lands on the valid date exactly `n` day numbers later, and otherwise fails with the overflow error |
| Dates.MonthField | to-do-list.py:78 | the `%m` field of `strptime` before the "-": when it is read, it spells a month 1..12 in a field of one or two characters, and a "-" follows the field; used by Dates.ParseDate |
| Dates.DayField | to-do-list.py:78 | the `%d` field of `strptime`, which must take up the rest of the text: when it is read, it spells a day 1..31; used by Dates.ParseDate |
| Dates.ParseDate | to-do-list.py:78 | `strptime(s, "%Y-%m-%d")` accepts only a valid calendar date in years 1..9999; every rejection is the "unparsable" error |
| Dates.FormatDate | to-do-list.py:79-81 | definition of `strftime("%Y-%m-%d")` on a valid date: four-digit year, two-digit month and day, zero-padded, joined by "-"; the pages use the same format at lines 184 and 200; its properties are stated by Dates.ParseFormat, Dates.FieldsParse and Dates.FormatParse |
| Dates.ParseFormat | to-do-list.py:79-81 | `strftime("%Y-%m-%d")` writes a 10-character `YYYY-MM-DD` text, which `strptime` reads back as the same date |
| Dates.FieldsParse | to-do-list.py:78 | a zero-padded `YYYY-MM-DD` text whose digits spell a valid date parses to exactly that date |
| Dates.FormatParse | to-do-list.py:77-82 | a text that parses to a date is reproduced by formatting that date exactly when it is already in zero-padded `YYYY-MM-DD` form |
| Dates.RuleDays | to-do-list.py:79-82 | definition of the days each rule adds: 1 for "Daily", 7 for "Weekly" (`weeks=1`), 30 for "Monthly", and no step for any other rule; its use is stated by Dates.ComputeNextDate and Dates.NextDateIs |
| Dates.ComputeNextDate | to-do-list.py:77-82 | unparsable date: parse error for every rule; unknown rule: the input text unchanged; Daily/Weekly/Monthly: succeeds iff the date plus 1/7/30 days is within year 9999, giving the canonical text of exactly that date, and overflow otherwise |
| Dates.NextDateIs | to-do-list.py:77-82 | for a known rule, the result is the formatted text of the date whose day number is the parsed date's plus the rule's days |
| DateExamples.DailyRollsOverYear | to-do-list.py:79 | "Daily" from 2024-12-31 gives 2025-01-01 |
| DateExamples.DailyReachesLeapDay | to-do-list.py:79 | "Daily" from 2024-02-28 gives 2024-02-29 |
| DateExamples.DailySkipsLeapDayInCommonYear | to-do-list.py:79 | "Daily" from 2023-02-28 gives 2023-03-01 |
| DateExamples.WeeklyCrossesMonth | to-do-list.py:80 | "Weekly" from 2025-01-28 gives 2025-02-04 |
| DateExamples.MonthlyIsThirtyDays | to-do-list.py:81 | "Monthly" from 2025-03-01 gives 2025-03-31, not a calendar month |
| DateExamples.MonthlyFromMonthEnd | to-do-list.py:81 | "Monthly" from 2025-01-31 gives 2025-03-02 |
| DateExamples.UnpaddedDateIsNormalised | to-do-list.py:78-79 | an unpadded "2025-1-5" is accepted and the next date comes back zero-padded as "2025-01-06" |
| DateExamples.UnknownRule | to-do-list.py:78-82 | an unknown rule returns the input text unchanged, but an invalid date fails even then |
| DateExamples.LastDateOverflows | to-do-list.py:79 | "Daily" from 9999-12-31 overflows |
| DateExamples.MonthlyOverflowsNearTheEnd | to-do-list.py:81 | "Monthly" from 9999-12-02 overflows |
| DateExamples.MonthlyReachesTheEnd | to-do-list.py:81 | "Monthly" from 9999-12-01 gives 9999-12-31 |
| DateExamples.RejectedDates | to-do-list.py:78 | year 0, 29 February of a common year, month 13 and trailing text are rejected |
| DateExamples.AcceptedDates | to-do-list.py:78 | a leap day and a day written with a leading blank (" 7") are accepted |
| Forms.StripLeftSpec | to-do-list.py:181 | stripping the left end removes exactly the leading run of droppable characters |
| Forms.StripRightSpec | to-do-list.py:181 | stripping the right end removes exactly the trailing run of droppable characters |
| Forms.StripSpec | to-do-list.py:181 | `strip` removes a run of droppable characters from each end and nothing else: the result is a slice whose outside is all droppable and whose ends are not |
| Forms.HasTitle | to-do-list.py:181 | definition of the form's test `task.strip()` on the title: the stripped title is not empty; its meaning is stated by Forms.HasTitleIff and Forms.TitleExamples |
| Forms.HasTitleIff | to-do-list.py:181 | the add-task form accepts a title exactly when some character of it is not Python white space |
| Forms.TitleExamples | to-do-list.py:181 | the empty title and a title of blanks, tab and newline are refused; a padded title is accepted |
| Forms.PatternMatches | to-do-list.py:145 | definition of `re.match(r"[^@]+@[^@]+\.[^@]+", email)`: some split of the address into a non-empty `@`-free part, "@", a non-empty `@`-free part, ".", and a non-empty `@`-free rest; related to the scan by Forms.EmailLooksValidIff, Forms.ScanFindsMatch and Forms.MatchPassesScan |
| Forms.EmailLooksValid | to-do-list.py:145 | definition of the email check as a left-to-right scan of the address; Forms.EmailLooksValidIff proves it accepts exactly the addresses Forms.PatternMatches accepts, and Forms.EmailAccepted, Forms.EmailRejected and Forms.EmailRejectedWithSecondAt are concrete cases |
| Forms.EmailLooksValidIff | to-do-list.py:145 | the left-to-right scan of the address accepts exactly the strings the anchored regular expression `[^@]+@[^@]+\.[^@]+` matches |
| Forms.ScanFindsMatch | to-do-list.py:145 | an address the scan accepts matches the regular expression |
| Forms.MatchPassesScan | to-do-list.py:145 | an address matching the regular expression at any split passes the scan |
| Forms.EmailAccepted | to-do-list.py:145 | "bo@x.io" passes the email check |
| Forms.PatternMatchesExample | to-do-list.py:145 | "alice@example.com" matches the regular expression |
| Forms.EmailRejected | to-do-list.py:145 | "a@.c" is refused: nothing stands between the '@' and the '.' |
| Forms.EmailRejectedWithSecondAt | to-do-list.py:145 | "a@b@c.d" is refused: the '.' comes after a second '@' |
| Text.Lower | to-do-list.py:69 | the lower-cased text has the same length as the input and each character is the ASCII lower-casing of the input's character at that position (`.lower()`, and the folding of SQLite `LIKE`) |
| Tables.Like | to-do-list.py:61-62 | definition of SQLite `LIKE`: `%` matches any run of characters, `_` any one character, any other character itself ignoring ASCII case; its properties are stated by Tables.LikeAnything, Tables.LikePrefix, Tables.LikeSuffix and Tables.SearchPatternIsSubstring |
| Tables.LikeAnything | to-do-list.py:61-62 | the pattern "%" matches every text, including the empty one |
| Tables.LikePrefix | to-do-list.py:61-62 | a wildcard-free `q` followed by "%" matches exactly the texts that begin with `q`, ignoring ASCII case |
| Tables.LikeSuffix | to-do-list.py:61-62 | "%" followed by `p` matches exactly the texts with some suffix matching `p` |
| Tables.SearchPatternIsSubstring | to-do-list.py:60-63 | for a query without `%` or `_`, `LIKE '%query%'` holds exactly when the lower-cased query occurs in the lower-cased text |
| Tables.Select | to-do-list.py:47-49 | definition of a `SELECT rowid, * FROM todo WHERE ...` scan over rowids in increasing order, as `get_tasks`, `search_tasks` (line 61) and `get_due_tasks` (line 86) issue it; its meaning is stated by Tables.SelectSpec and Tables.SearchWithinOwner, and App.ToDoApp.Scan computes it |
| Tables.SelectSpec | to-do-list.py:47-49 | a scan returns exactly the stored (rowid, row) pairs satisfying its WHERE clause, each once, in increasing rowid order |
| Tables.SearchWithinOwner | to-do-list.py:60-63 | every search hit is also among the user's own tasks: a search never shows another user's task |
| Tables.CredentialMatches | to-do-list.py:31-32 | definition of `SELECT * FROM users WHERE username=? AND password=?` as a filter of the user rows in table order; its meaning is stated by Tables.CredentialMatchesSpec and Tables.DuplicateSignup |
| Tables.CredentialMatchesSpec | to-do-list.py:30-32 | `login_user` returns exactly the user rows whose username and password both match |
| Tables.ContactOf | to-do-list.py:39-40 | definition of `get_user_email_key` as the email and key of the first user row with that username, or nothing; its meaning is stated by Tables.ContactOfSpec, Tables.ContactAppend and Tables.DuplicateSignup |
| Tables.ContactOfSpec | to-do-list.py:38-40 | `get_user_email_key` returns nothing iff no row has the username, and otherwise the email and key of the first such row |
| Tables.ContactAppend | to-do-list.py:38-40 | appending a user row changes the lookup only for a username that had no row before |
| Tables.DuplicateSignup | to-do-list.py:26-32 | signing up twice with the same credentials makes login return both rows, and the second row never changes the contact looked up |
| Tables.IsDone | to-do-list.py:69 | definition of `new_status and new_status.lower() == "done"`: the status is not empty and lower-cases to "done"; cases are stated by Tables.DoneSpellings |
| Tables.Recurs | to-do-list.py:72 | definition of `rec and rec != "None"`: the recurring column is neither empty nor the text "None"; its use is stated by Tables.StatusUpdateRow and Tables.NonRecurringDoneIdempotent |
| Tables.StatusUpdate | to-do-list.py:65-75 | definition of `update_task_status` as a function from the task table to the new table and the outcome; its properties are stated by Tables.StatusUpdateFrame, Tables.StatusUpdateRow, Tables.StatusUpdateMissingRow, Tables.UnparsableDateLeavesDone, Tables.NonRecurringDoneIdempotent, Tables.StatusUpdateKeepsDates and Tables.RolloverAfterDone, and App.ToDoApp.UpdateTaskStatus computes it |
| Tables.DoneSpellings | to-do-list.py:69 | "Done", "done" and "DONE" count as done; "ToDo", "In Progress" and the empty status do not |
| Tables.StatusUpdateFrame | to-do-list.py:65-75 | a status update touches only the given rowid and never adds or removes a task |
| Tables.StatusUpdateRow | to-do-list.py:65-75 | for an existing task: a status that is not done is simply written; done on a non-recurring task keeps "done"; on a recurring task either the date moves to the computed next date with status "ToDo", or the computation fails and the done status stays with the old date |
| Tables.StatusUpdateMissingRow | to-do-list.py:65-71 | for a missing rowid nothing changes; the update fails, with "no such row", exactly when the status is done |
| Tables.UnparsableDateLeavesDone | to-do-list.py:65-73 | a recurring task with an unparsable date keeps the committed done status and its date, and the update reports the parse error |
| Tables.NonRecurringDoneIdempotent | to-do-list.py:65-72 | marking a non-recurring task done twice leaves the same table as marking it once |
| Tables.StatusUpdateKeepsDates | to-do-list.py:65-75 | when every stored date is a valid zero-padded `YYYY-MM-DD` text, that holds after a status update too, and the only possible failures are "no such row" and overflow |
| Tables.RolloverAfterDone | to-do-list.py:69-75 | marking a recurring task done whose next date computes replaces just that row's date and status with the next date and "ToDo", and succeeds |
| Scenarios.DailyRollover | to-do-list.py:65-79 | a "Daily" task due 2024-12-31 marked "Done" becomes "ToDo" due 2025-01-01 |
| Scenarios.MonthlyRollover | to-do-list.py:65-81 | a "Monthly" task due 2025-03-01 marked "done" becomes "ToDo" due 2025-03-31 |
| App.ToDoApp.constructor | to-do-list.py:15-24 | a new application starts with three empty tables |
| App.ToDoApp.AddUser | to-do-list.py:26-28 | the user row is appended with no uniqueness check; nothing else changes |
| App.ToDoApp.LoginUser | to-do-list.py:30-32 | the result lists exactly the user rows with this username and password, in table order |
| App.ToDoApp.LogLogin | to-do-list.py:34-36 | one login event with the given time is appended; nothing else changes |
| App.ToDoApp.Login | to-do-list.py:155-162 | a login is accepted iff some user row has these credentials, and a login event is appended exactly then |
| App.ToDoApp.GetUserEmailKey | to-do-list.py:38-40 | returns the first row's email and key for the username, and nothing exactly when no row has that username |
| App.ToDoApp.SignUp | to-do-list.py:144-149 | the account is added iff the email matches the regular expression; otherwise nothing changes |
| App.ToDoApp.AddTask | to-do-list.py:42-45 | the task is stored under a rowid not in use before, the others are untouched, and that rowid is returned |
| App.ToDoApp.SubmitTask | to-do-list.py:180-185 | a title of white space only adds nothing; otherwise one new task is stored with the picked date as `YYYY-MM-DD` and the favourite flag as 0 or 1 |
| App.ToDoApp.Scan | to-do-list.py:48 | the rows returned are exactly the stored tasks satisfying the query, with their rowids, in increasing rowid order |
| App.ToDoApp.GetTasks | to-do-list.py:47-49 | returns exactly the tasks owned by the user |
| App.ToDoApp.SearchTasks | to-do-list.py:60-63 | returns exactly the user's tasks whose title, date or status is `LIKE '%query%'` |
| App.ToDoApp.GetDueTasks | to-do-list.py:84-87 | returns exactly the tasks of all users whose date text equals today's |
| App.ToDoApp.UpdateTask | to-do-list.py:51-54 | rewrites every column of the task but its owner; a missing rowid changes nothing |
| App.ToDoApp.DeleteTask | to-do-list.py:56-58 | removes that rowid and no other task |
| App.ToDoApp.UpdateTaskStatus | to-do-list.py:65-75 | the new table and the outcome are those of the status update function on the old table; users, login history and the rowid counter are unchanged |
| Reminders.EmailReminder | to-do-list.py:89-108 | the reminder email goes to the owner's address with the fixed subject |
| Reminders.PushNotification | to-do-list.py:110-117 | no push is attempted exactly when the user key is empty |
| Reminders.RemindersFor | to-do-list.py:226-230 | definition of the deliveries for one due task: nothing when its owner has no user row, otherwise the email and then the push (the push only for a non-empty key); its properties are stated by Reminders.EveryDueTaskReminded and Reminders.RemindersTraceBack |
| Reminders.Reminders | to-do-list.py:223-230 | definition of the deliveries for a list of due tasks, in their order; its properties are stated by Reminders.ReminderCounts, Reminders.CountsAppend, Reminders.EveryDueTaskReminded and Reminders.RemindersTraceBack, and Reminders.SendReminders computes it |
| Reminders.SendReminders | to-do-list.py:221-230 | the sweep attempts, in rowid order over today's tasks of every user, the email and the push of each task whose owner has a user row |
| Reminders.CountsAppend | to-do-list.py:221-230 | email and push counts add up over concatenated delivery lists |
| Reminders.ReminderCounts | to-do-list.py:221-230 | a sweep attempts one email per due task whose owner has a user row and one push per due task whose owner's key is not empty |
| Reminders.EveryDueTaskReminded | to-do-list.py:226-230 | every due task with a known owner gets an email carrying its title, and a push carrying the owner's name and the title when the key is not empty |
| Reminders.RemindersTraceBack | to-do-list.py:223-230 | every delivery attempted belongs to one of the due tasks |
| Reminders.SweepCoversAllUsers | to-do-list.py:84-87 | a task of any user dated today, whose owner has an account, is reminded, not only the logged-in user's |
| Scenarios.PayRentScenario | to-do-list.py:65-81 | a "Monthly" task due 2025-03-01 marked "Done" comes back as "ToDo" due 2025-03-31, deduced from the class contracts alone |
| Scenarios.DuplicateSignupScenario | to-do-list.py:26-32 | two sign-ups under the same name both succeed, and login then finds both rows |

## Left out

- Streamlit pages, widgets, session state, logout and the task listing text are not modelled. The buttons that call the core are modelled as methods: sign-up, login, add task and send reminders. The edit and delete buttons call `UpdateTask` and `DeleteTask` directly.
- `export_pdf` and the CSV download are not modelled. They produce files from rows already fetched and change no state.
- SMTP and Pushover transport are not modelled. Each attempt is recorded as a `Notice`. The source catches send exceptions, so a send that fails with an error does not stop the sweep. The MIME structure of the email is not modelled. The messages printed when a send fails, "Email failed: …" (line 108) and "Push failed: …" (line 117), are not modelled.
- Reminders.SendReminders: assumes every send returns. The source sets no timeout on `smtplib.SMTP('smtp.gmail.com', 587)` (line 102) or on `requests.post` (line 115), so a stalled send blocks the loop at lines 223-230, and no later due task is reminded. The model always completes the sweep, and `Reminders.ReminderCounts` counts an attempt for every due task.
- The source reads `datetime.now()` for the login time and for today's date. The model takes both as parameters.
- `check_same_thread=False`, and concurrent Streamlit sessions on one connection, are not modelled.
- SQLite may reuse the largest deleted rowid for the next insert. The model hands out strictly increasing rowids, which changes which rowid a new task gets but no other property proved here.
- SQL `NULL` values and SQLite's column type affinity are not modelled. Every column is text except `favorite`, which is stored as an integer.
- `create_tables` on an existing database file is not modelled. The constructor models a fresh file. On an existing file, the tables keep their rows.
- Python `strptime` and regular-expression `\d` also accept non-ASCII decimal digits. The model accepts ASCII digits only.
- Python `str.lower` folds all of Unicode; the model folds ASCII only. No other character lower-cases to a letter of "done", so the done test is exact. SQLite `LIKE` folds ASCII only, which the model follows exactly.
- Dates.FormatDate: always zero-pads the year to four digits, as Python 3 on most platforms does. Some older builds on glibc write years below 1000 unpadded, and that variant is not modelled.
- App.ToDoApp.SubmitTask: takes the picked date as an already valid `Date`, since the date widget cannot produce anything else.
