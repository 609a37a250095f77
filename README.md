# lingolog study-log core, in Dafny

lingolog records time spent studying languages. Users register and log in. They create languages, log study sessions against a language, and read back listings, per-category statistics, a day streak and a calendar heat map. This project models the decision logic of that system and proves what it promises:

- **Store** (`db.dfy`, module `Schema`). The two SQLite tables of `backend/database/db.js` form a class `Database` whose fields are the tables. The rules the schema makes SQLite enforce are stated in its `Valid()` predicate and kept by every mutating method:
  - AUTOINCREMENT ids, which are never reused;
  - the UNIQUE language name;
  - the foreign key from a session to its language, with ON DELETE CASCADE.
- **Language routes** (`languages.dfy`, module `LanguageRoutes`). The handlers of `backend/routes/languages.js`.
- **Session routes** (`sessions.dfy`, module `SessionRoutes`). The handlers of `backend/routes/sessions.js`:
  - the inner join and its ordering;
  - the per-language listing;
  - the statistics, where `GROUP BY` is proved to be a grouping whose sums add up to the total;
  - create and delete.
- **Accounts** (`auth.dfy`, module `Auth`). Registration and login from `backend/routes/auth.js`. bcrypt and JWT signing are function parameters.
- **Calendar** (`calendar.dfy`, module `Calendar`). Days of JavaScript's proleptic Gregorian calendar, as integers. Year lengths and weekdays are proved from the leap-year rule.
- **Heat map** (`heatmap.dfy`, module `Heatmap`). From `frontend/src/components/Heatmap.jsx`:
  - `calculateStreak`, as a method with loop invariants;
  - `getYearGrid`, as a method proved equal to a declarative layout of the year;
  - the per-cell lookup.
- **Front-end helpers** (`app.dfy`, module `Format`). From `frontend/src/App.jsx`:
  - `formatTime`, proved injective on non-negative minutes through a reader that inverts it;
  - the `trim` guard of `addLanguage`.
- **Shared pieces** (`common.dfy` and `seqs.dfy`). JavaScript truthiness, replies, filtering, and a stable sort with its permutation, sortedness and filter-commutation lemmas.

State-changing operations are methods on the `Database` or `UserTable` object, with `modifies` clauses. Each states the whole new state, and every handler's error path states that the database is unchanged (`db.State() == old(db.State())`). Read-only queries are functions.

Notes on the code as written:

- **Foreign key.** better-sqlite3 enforces foreign keys. So POST /sessions with a `language_id` naming no language fails the insert, and the `catch` answers 500 "Failed to add session" rather than 400.
- **Streak versus active cell.** The streak counts a day that has any entry, even one of 0 minutes. The heat map draws a cell active only when its minutes are above 0. `Heatmap.StreakIgnoresMinutes` exhibits a day that counts for the streak but is not drawn active.
- **Whitespace-padded names.** `addLanguage` checks `newLanguage.trim()` but posts the untrimmed text. So " French" and "French" are different names to the UNIQUE constraint (`Format.PaddedNamesAreDistinct`).
- **Negative durations.** The server accepts any truthy duration, negative ones included. `formatTime` shows -90 as "-2h -30m" (`Format.NegativeDurationShown`).
- **The `break` in `getYearGrid`.** Where every day has a local midnight, every date the loop visits is a midnight. The guard `currentDate.getFullYear() <= year` then first fails on the day after 31 December, and the model's guard is `currentDate <= lastDay`. Under that reading the `break` for a date past 31 December is never reached; the model keeps it as written. In a time zone whose daylight-saving change skips midnight, `setDate` keeps the shifted 01:00 from then on. On 31 December the date is then later than `lastDay` at 00:00, the `break` fires, and 31 December is missing from the grid. The model does not cover this (see "## Left out").

## Model

| member | source | states |
|---|---|---|
| Schema.Database.constructor | backend/database/db.js:6-23 | the store starts with both tables empty and every schema rule holding |
| Schema.Database.InsertLanguage | backend/database/db.js:7-11 | a name already present is refused as a constraint violation with nothing changed; otherwise the row is appended with the next AUTOINCREMENT id, one never issued before; sessions untouched; the schema rules keep holding |
| Schema.Database.DeleteLanguage | backend/database/db.js:21 | the language row goes and, by ON DELETE CASCADE, exactly the sessions referencing it; `changes` is 1 exactly when the language existed; counters unchanged; the foreign key keeps holding |
| Schema.Database.InsertSession | backend/database/db.js:13-22 | a `language_id` naming no language is refused by the foreign key with nothing changed; otherwise the row is appended with a fresh AUTOINCREMENT id and languages are untouched |
| Schema.Database.DeleteSession | backend/routes/sessions.js:80 | exactly the rows with that id are removed; `changes` is 1 exactly when one existed; languages untouched |
| LanguageRoutes.NewerFirstIsTotalPreorder | backend/routes/languages.js:7 | `ORDER BY created_at DESC` compares any two rows and is transitive |
| LanguageRoutes.List | backend/routes/languages.js:5-12 | GET / returns every stored language exactly once (same multiset), newest first |
| LanguageRoutes.InsertFailureReply | backend/routes/languages.js:22-27 | a constraint failure answers 400, any other failure 500 |
| LanguageRoutes.Post | backend/routes/languages.js:14-29 | a missing or empty name answers 400 "Language name is required" and a duplicate 400 "Language already exists", both with the store unchanged; otherwise 201 with `{ id, name }`, where `id` is the new row's id and the row is appended; the language counter advances to that id, and the sessions table and its counter stay |
| LanguageRoutes.Delete | backend/routes/languages.js:31-41 | an unknown id answers 404 with the store unchanged; otherwise 200 "Language deleted", the language and all its sessions removed, the AUTOINCREMENT counters and issued ids kept |
| LanguageRoutes.DeleteThenPost | backend/routes/languages.js:14-41 | a language created after a delete never gets the deleted id, nor any id issued before |
| LanguageRoutes.DeleteTwice | backend/routes/languages.js:31-41 | a second delete of the same id always answers 404 |
| SessionRoutes.JoinOne | backend/routes/sessions.js:10 | every row the join makes of a session carries that session and the name of a language whose id it references |
| SessionRoutes.Join | backend/routes/sessions.js:8-10 | every joined row is a stored session with the name of the language it references |
| SessionRoutes.JoinOneWithoutMatch | backend/routes/sessions.js:10 | a session whose language is absent produces no row of the inner join |
| SessionRoutes.JoinOneFindsTheLanguage | backend/routes/sessions.js:10 | with unique language ids, a session whose language exists produces exactly one row |
| SessionRoutes.JoinKeepsEverySession | backend/routes/sessions.js:8-10 | under the foreign key the join keeps every session once, in order |
| SessionRoutes.TextBelowTransitive | backend/routes/sessions.js:11 | comparing DATE text under the BINARY collation is transitive |
| SessionRoutes.TextBelowTotal | backend/routes/sessions.js:11 | any two different DATE texts are ordered one way or the other |
| SessionRoutes.LaterFirstIsTotalPreorder | backend/routes/sessions.js:11 | `ORDER BY s.date DESC, s.created_at DESC` is a total preorder |
| SessionRoutes.List | backend/routes/sessions.js:5-17 | GET / returns exactly the joined rows (same multiset), latest date first and, within a date, latest created first |
| SessionRoutes.ListShowsEverySession | backend/routes/sessions.js:7-12 | in a valid store the listing has one row per session and shows every session |
| SessionRoutes.ListByLanguage | backend/routes/sessions.js:19-32 | a row is listed exactly when it is a joined row of that language; rows in listing order |
| SessionRoutes.ListByLanguageIsSliceOfList | backend/routes/sessions.js:21-27 | the per-language listing is the full listing with other languages' rows removed, order kept |
| SessionRoutes.AddNewCategory | backend/routes/sessions.js:42-46 | a row of a category not yet grouped adds one entry with its minutes and a count of 1 |
| SessionRoutes.AddExistingCategory | backend/routes/sessions.js:42-46 | a row of an existing category adds its minutes and 1 to that entry only |
| SessionRoutes.AddToGroupsKeepsGroups | backend/routes/sessions.js:42-46 | folding in one more row keeps the result a GROUP BY category of the rows |
| SessionRoutes.GroupByCategory | backend/routes/sessions.js:43-46 | one entry per category present and none for an absent one, each with that category's SUM and COUNT; the sums add up to the total and the counts to the number of rows |
| SessionRoutes.SortedGroupsStillGroups | backend/routes/sessions.js:47 | ordering the groups by total minutes keeps them a grouping of the same rows |
| SessionRoutes.GetStats | backend/routes/sessions.js:34-57 | `total_minutes` is the sum over the language's sessions (0 when none); `by_category` groups exactly those sessions by category, largest total first |
| SessionRoutes.SumCountsBoundsLength | backend/routes/sessions.js:43 | groups that each count at least one session count at least as many sessions as there are groups |
| SessionRoutes.StatsWithoutSessions | backend/routes/sessions.js:50-53 | a language without sessions gets total 0 and no category entries |
| SessionRoutes.StatsAfterFirstSession | backend/routes/sessions.js:34-57 | after its first session a language's statistics are that session's minutes under its one category, counted once |
| SessionRoutes.HasRequiredFields | backend/routes/sessions.js:63 | the required fields pass exactly when `language_id`, `category`, `duration_minutes` and `date` are all present, neither number is 0 and neither text is empty |
| SessionRoutes.StoredNotes | backend/routes/sessions.js:70 | `notes \|\| null` stores NULL exactly for missing or empty notes, else the notes themselves |
| SessionRoutes.Post | backend/routes/sessions.js:59-76 | a missing required field (a 0 duration counts as missing) answers 400 with the store unchanged; an unknown language answers 500 "Failed to add session" with the store unchanged; otherwise 201 with the new id and the row appended; the session counter advances to that id, and the languages table and its counter stay |
| SessionRoutes.Delete | backend/routes/sessions.js:78-88 | an unknown id answers 404 with the store unchanged; otherwise 200 "Session deleted" and exactly one session is gone; languages, counters and issued ids stay |
| SessionRoutes.DeleteThenPost | backend/routes/sessions.js:59-88 | a session created after a delete never gets the deleted id, nor any id issued before |
| SessionRoutes.OneRowPerId | backend/routes/sessions.js:80-83 | with unique ids, deleting an existing id removes exactly one row |
| Auth.Payload | backend/routes/auth.js:27-32 | the reply's user carries id, username and e-mail and no password; the token signs exactly those with a 7-day lifetime |
| Auth.UserTable.Insert | backend/routes/auth.js:24-25 | a taken username or e-mail is a constraint violation with nothing changed; otherwise the user is appended with a fresh id; uniqueness keeps holding |
| Auth.RegisterFailureReply | backend/routes/auth.js:33-38 | a constraint failure answers 400 "Username or email already exists", any other 500 "Server error" |
| Auth.Register | backend/routes/auth.js:10-40 | a missing field answers 400 "All fields required"; a password shorter than 6 answers 400; a duplicate answers 400; none of these change the table; otherwise 201 with the signed payload of the new user, stored with the hash of the password under the next id, which the counter and the issued ids then record |
| Auth.FindByEmail | backend/routes/auth.js:50-51 | nothing is found exactly when no user has that e-mail; a found user is stored and has it |
| Auth.Login | backend/routes/auth.js:42-72 | 400 exactly when a field is missing; every other failure is 401 "Invalid credentials"; success happens exactly when the user with that e-mail verifies the password, and answers 200 with that user's payload |
| Auth.BadCredentialsLookAlike | backend/routes/auth.js:53-61 | an unknown e-mail and a wrong password get the same reply |
| Auth.LoginAfterRegister | backend/routes/auth.js:42-68 | after an account with a fresh e-mail is added, login with that e-mail succeeds exactly with the registered password |
| Auth.RegisterThenLogin | backend/routes/auth.js:10-68 | after registering, a login with the same e-mail answers 200 exactly when the password matches, else 401; on success the user is the registration's and the token signs the same claims, issued at the login's time, so it equals the registration's token only when both happen in the same second |
| Auth.FindAppended | backend/routes/auth.js:50-51 | the lookup finds a newly added user whose e-mail was not taken |
| Calendar.YearLength | frontend/src/components/Heatmap.jsx:67-68 | 1 January to 31 December spans 366 days in a leap year and 365 otherwise |
| Calendar.Weekday | frontend/src/components/Heatmap.jsx:72 | `getDay` is a weekday number from 0 (Sunday) to 6 |
| Calendar.WeekdayNext | frontend/src/components/Heatmap.jsx:72 | the next day has the next weekday, Saturday (6) followed by Sunday (0) |
| Calendar.UnixEpochWasThursday | frontend/src/components/Heatmap.jsx:72 | the day numbering agrees with `getDay`: 1 January 1970 is a Thursday |
| Heatmap.RunIsUnique | frontend/src/components/Heatmap.jsx:57-60 | a run of active days ending at a given day has one length only, so the streak is well defined |
| Heatmap.FutureEntriesIgnored | frontend/src/components/Heatmap.jsx:34-40 | entries dated after today change no day's activity |
| Heatmap.CalculateStreak | frontend/src/components/Heatmap.jsx:23-63 | the streak is the length of the run of active days ending today when today is active, else ending yesterday when yesterday is, else 0 |
| Heatmap.YearCellsLayout | frontend/src/components/Heatmap.jsx:70-102 | the grid fills whole weeks, starts with one blank per weekday before 1 January, has 1 January at that position and only blanks after 31 December |
| Heatmap.YearCellsDays | frontend/src/components/Heatmap.jsx:79-94 | the days in the grid are every day of the year, each once, in order |
| Heatmap.PaddingCompletesWeek | frontend/src/components/Heatmap.jsx:96-102 | the blanks that pad a partial last week are the trailing blanks of the layout |
| Heatmap.LastWeekCompletesGrid | frontend/src/components/Heatmap.jsx:96-102 | padding the partial last week, if any, completes the layout of the year |
| Heatmap.PlaceCell | frontend/src/components/Heatmap.jsx:80-91 | placing one more cell keeps every completed week at 7 cells, leaves fewer than 7 in the current week, and appends exactly that cell to the grid read in order |
| Heatmap.FillWeek | frontend/src/components/Heatmap.jsx:98-100 | the week is padded with nulls up to 7 cells |
| Heatmap.YearGrid | frontend/src/components/Heatmap.jsx:65-105 | every week has 7 cells, and the weeks read in order are the layout of the year |
| Heatmap.FindDay | frontend/src/components/Heatmap.jsx:110 | nothing is found exactly when no entry has that day; otherwise the first entry of that day is found |
| Heatmap.ActivityForDate | frontend/src/components/Heatmap.jsx:107-111 | an empty cell has no activity; a day cell has its first entry |
| Heatmap.IsActiveCell | frontend/src/components/Heatmap.jsx:142 | a cell is drawn active exactly when it is a day whose first entry has more than 0 minutes |
| Heatmap.ActiveCellCountsForStreak | frontend/src/components/Heatmap.jsx:142 | a cell drawn active, on or before today, is a day the streak counts |
| Heatmap.StreakIgnoresMinutes | frontend/src/components/Heatmap.jsx:142 | a day whose only entry has 0 minutes counts for the streak but is not drawn active |
| Format.NatToString | frontend/src/App.jsx:139-141 | the numeral of a number is digits only, never empty, with no leading zero |
| Format.ParseNatToString | frontend/src/App.jsx:139-141 | reading the numeral of a number gives the number back |
| Format.MinutesPastHour | frontend/src/App.jsx:138 | `minutes % 60` truncates: it lies strictly between -60 and 60, differs from the minutes by a multiple of 60, and has the sign of the minutes |
| Format.FormatTime | frontend/src/App.jsx:136-142 | the text is at least two characters, starts with a minus sign exactly for negative minutes, and ends in `h` exactly for a non-zero whole number of hours, otherwise in `m`; the three per-case lemmas below fix the exact text for non-negative minutes |
| Format.RoundTripUnderAnHour | frontend/src/App.jsx:139 | below an hour the text is exactly `<m>m`, the numeral of the minutes, and it reads back as the minutes |
| Format.RoundTripWholeHours | frontend/src/App.jsx:140 | one or more whole hours are shown as exactly `<h>h`, the numeral of the hours, which reads back as the minutes |
| Format.RoundTripHoursAndMinutes | frontend/src/App.jsx:141 | otherwise the text is exactly `<h>h <m>m`, with at least one hour and `m` between 1 and 59, and it reads back as the minutes |
| Format.FormatTimeRoundTrip | frontend/src/App.jsx:136-142 | for every non-negative duration, the text shown reads back as that duration |
| Format.FormatTimeInjective | frontend/src/components/Heatmap.jsx:113-119 | two non-negative durations that are shown alike are equal (the copy in Heatmap.jsx is the same function) |
| Format.NegativeDurationShown | frontend/src/App.jsx:136-142 | -90 minutes is shown as "-2h -30m" |
| Format.LeadingWhitespace | frontend/src/App.jsx:67 | the count of leading whitespace: all of those characters are whitespace and the next one is not |
| Format.TrailingWhitespace | frontend/src/App.jsx:67 | the count of trailing whitespace: all of those characters are whitespace and the one before is not |
| Format.TrimBounds | frontend/src/App.jsx:67 | everything before the start and after the end of the kept text is whitespace, and a non-empty kept text starts and ends with a character that is not |
| Format.Trim | frontend/src/App.jsx:67 | `trim` returns a contiguous part of the text, with only whitespace removed around it, that neither starts nor ends with whitespace |
| Format.TrimIdempotent | frontend/src/App.jsx:67 | trimming twice is trimming once |
| Format.ShouldSubmit | frontend/src/App.jsx:67 | the guard lets a name through exactly when it holds a character that is not whitespace |
| Format.SubmittedNamePassesServer | frontend/src/App.jsx:67-70 | a name the guard lets through passes the server's `if (!name)` check |
| Format.PaddedNamesAreDistinct | frontend/src/App.jsx:67-70 | " French" and "French" both pass the guard and trim alike, yet are different names when posted |

## Left out

- Express routing, JSON parsing and the authentication middleware are not part of this model. Handlers take their parsed inputs and return a status with a body.
- SQL text and the SQLite engine are not modelled. Each query is a function over the table contents, and each constraint is a rule the `Database` methods enforce.
- The engine's own failures are not modelled. The model has none of them, so these 500 replies never occur in it:
  - the `catch` blocks of the GET handlers;
  - the `catch` blocks of both DELETE handlers;
  - the 500 of login;
  - the `OtherFailure` branch of the POST handlers and of register. `InsertFailureReply` and `RegisterFailureReply` state that branch, but no `Database` or `UserTable` method produces it.
- LanguageRoutes.Post and Auth.Register take the engine's duplicate-key failure to arrive as the code the source compares, `error.code === 'SQLITE_CONSTRAINT'` (languages.js:23, auth.js:34). better-sqlite3 may report the extended code (`'SQLITE_CONSTRAINT_UNIQUE'`). If it does, both duplicate branches answer 500 rather than the 400 the model states.
- Auth.LoginAfterRegister and Auth.RegisterThenLogin rest on `HashChecks` holding exactly for the password that was hashed. bcrypt reads only the first 72 bytes of a password, so a longer password that agrees on those bytes also logs in.
- SessionRoutes.ListByLanguageIsSliceOfList: rows tied on `(date, created_at)` keep their stored order, as the model's stable sort does. SQLite leaves the order of such ties unspecified, and `CURRENT_TIMESTAMP` has one-second resolution, so the two queries need not order ties alike.
- SessionRoutes.HasRequiredFields and SessionRoutes.Post take request-body fields as typed JSON values. The form posts `duration_minutes` as the text of the input. A text "0" is truthy and passes the guard, and INTEGER affinity then stores it as 0; non-numeric text would be stored as TEXT. The model's 0 duration counts as missing only when it arrives as a number.
- `created_at` is an abstract ordering stamp supplied by the caller. `CURRENT_TIMESTAMP` is not modelled.
- `req.params` ids arrive as text and SQLite converts them; the model takes them as integers.
- The `users` table is not created in `db.js`. The model assumes an AUTOINCREMENT id and UNIQUE username and e-mail, which the register handler's constraint branch relies on.
- bcrypt and JWT are parameters. `sign` receives the claims, the issue time (`iat`, a parameter `now` of each handler) and the 7-day lifetime. The cost factor 10 and the secret `JWT_SECRET` are not modelled, and neither are token expiry or verification.
- Rows belong to no user. The routes shown do not scope data by user, and neither does the model.
- Register: `password.length` counts UTF-16 code units in JavaScript, while the model counts Unicode characters.
- Dates are day numbers. Time zones, `Date` objects and the `toISOString` text of a day are not modelled. So the model does not capture how a time zone east of UTC shifts `todayStr` in `calculateStreak`. Nor does it capture a daylight-saving change that skips local midnight: from then on `getYearGrid` visits 01:00, and its `break` drops 31 December from the grid.
- `fetchDailyActivity` calls `/sessions/daily-activity`, but `backend/routes/sessions.js` defines no such route: its only GET handlers are `/`, `/language/:languageId` and `/stats/:languageId`. With no server side to model, the daily data is a parameter of the streak and the lookup.
- Rendering, hover state, modals, dark mode and `formatDate` are UI only and are not modelled.
- `getYearGrid` and `calculateStreak` read the clock. The year and "today" are parameters.
- Format.FormatTimeRoundTrip: stated for non-negative minutes only. `ReadTime` reads no minus sign, and the form's `min="1"` keeps the UI from producing negative durations.
