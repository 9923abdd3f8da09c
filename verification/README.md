# Attendance tracker: a Dafny model

This project models the bookkeeping core of a small attendance tracker. It has
three parts.

The backend (`server.js`) keeps two MongoDB collections:
- `users`: username, password and admin flag, with a unique index on the username;
- `attendance`: one document per calendar date, named by its `YYYY-MM-DD` key and
  holding the list of students present that day, with a unique index on the date.

The backend's operations are:
- seeding fourteen accounts at start-up;
- logging in;
- reading a day's list;
- marking today's attendance, which only an admin may do and only for today's date;
- reading a student's history, which the student or an admin may do;
- computing analytics: 30 daily percentages, one total per student, and 12 monthly counts.

The admin panel (`src/Admin.jsx`) does four things:
- it lets an admin tick the students present;
- it locks the ticks once the day is saved;
- it shows any day's list with a present/absent pie;
- it hides the list for dates after today.

The leaderboard (`src/Leaderboard.jsx`) fetches the analytics, sorts the student
totals from the highest down, and shows them ranked.

The modules are:
- `DateKeys` (date_keys.dfy): the date key `getTodayServer` builds, the month key, and JavaScript's string order `<`. Its lemmas show that, for four-digit years, the key's fields read back as the year, month and day. They also show that comparing keys as strings is comparing dates in time, and that a key starts with a month key exactly when the date lies in that month.
- `Store` (store.dfy): each collection is a sequence of documents in natural order.
  - `findOne` is the first match and `find` is a filter.
  - `findOneAndUpdate` with `upsert` sets the update's fields on the first match, or appends a new document when nothing matches.
  - The two unique indexes are invariants that every upsert keeps.
- `Server` (server.dfy): class `Backend`, whose fields are the two collections, with one method per route and the seeding loop. Its `Valid()` predicate is the pair of unique indexes. The access rules and the percentage are pure functions with their own contracts.
- `Admin` (admin.dfy): class `AdminPanel`, whose fields are the component's state, with one method per handler or effect. The selection toggle, the pie and the save body are functions.
- `Leaderboard` (leaderboard.dfy): class `LeaderboardView` with the fetch handler and the rendered view. The sort is an in-place selection sort on an array, proved sorted and a permutation of its input.

Three facts about the code shape the model:
- `getTodayServer` reads the host's local date, in whatever time zone the host runs (server.js:62-68). The model takes the clock's year, month and day as a parameter.
- The write path accepts a date from the client and compares it with today's key (server.js:96-100).
- The admin panel's save posts the selection without a date (src/Admin.jsx:67). `Admin.SaveRequest` proves that the server turns every such request away, whoever sends it.

## Model

| member | source | states |
|---|---|---|
| DateKeys.Decimal | server.js:65-66 | `String(n)` of a non-negative integer is a digit string that reads back as n, with one to four characters for n below 10, 100, 1000 and 10000 |
| DateKeys.DecimalNoLeadingZero | server.js:65-66 | for every n, `String(n)` is a single digit or does not start with `0` |
| DateKeys.PadStart2 | server.js:65-66 | `padStart(2, '0')` leaves text of two or more characters alone; shorter text becomes two characters, zero-filled in front and ending in the original |
| DateKeys.TwoDigitField | server.js:65-66 | a month or day from 1 to 99, padded, is exactly two digits that read back as the number |
| DateKeys.MonthKey | server.js:164 | the `YYYY-MM` month key: for a month below 100 it is the year's text, a dash, and two month characters |
| DateKeys.MonthKeyFields | server.js:164 | for a four-digit year the month key has seven characters, and its year and month fields read back as the numbers |
| DateKeys.TodayKey | server.js:62-68 | the `YYYY-MM-DD` key `getTodayServer` builds: the month's key, then a dash, then a day field of two characters for any day below 100 |
| DateKeys.TodayKeyStartsWithMonth | server.js:62-68 | for a four-digit year the first seven characters of a day key are the key of its month |
| DateKeys.TodayKeyFields | server.js:62-68 | whatever the year, the key of `getTodayServer` ends in `-MM-DD`, and those two fields read back as the month and the day |
| DateKeys.CanonicalKey | server.js:62-68 | for a four-digit year the key is ten characters with dashes at positions 4 and 7, and the year, month and day fields read back as the numbers they were built from |
| DateKeys.ValueInjective | server.js:65-66 | two digit strings of one length that denote the same number are the same string |
| DateKeys.IsPrefix | server.js:165 | `^p` on a text without special characters: the text is `p` followed by the rest |
| DateKeys.Less | src/Admin.jsx:78 | JavaScript's string `<`, character by character: no string sorts before itself, and a proper prefix sorts first |
| DateKeys.LessAsymmetric | src/Admin.jsx:78 | of two strings, at most one sorts before the other |
| DateKeys.LessDigits | src/Admin.jsx:78 | on digit strings of one length, JavaScript string `<` is numeric `<` |
| DateKeys.KeyOrderIsChronological | src/Admin.jsx:78 | for four-digit years, one key is string-less than another exactly when its date is earlier (year, then month, then day) |
| DateKeys.MonthPrefixIsSameMonth | server.js:164-165 | for four-digit years, the `^YYYY-MM` pattern matches a day key exactly when the day lies in that year and month |
| Store.FindUser | server.js:103 | `findOne({username})` finds a document exactly when the name has an account; the result is in the collection and has that name; with unique names it is the only one |
| Store.FindCredentials | server.js:73 | `findOne({username, password})` finds a document exactly when some account has both that name and that password, and returns such an account |
| Store.IsAdmin | server.js:103-104 | `user && user.isAdmin`: true only for an account with that name and the admin flag set; with unique names, exactly then |
| Store.Upserted | server.js:54 | the document an upsert leaves: the update's name and password, and the admin flag from the update, else from the matched account, else the schema default `false` of server.js:29 |
| Store.UpsertUser | server.js:54 | after the upsert, the name finds the matched document with the update's fields set, or a new document with the admin flag defaulting to false; every other name finds what it found before |
| Store.UpsertUserKeepsUnique | server.js:27 | an upsert adds at most its own name and keeps usernames unique |
| Store.FindRecord | server.js:87 | `findOne({date})` finds a record exactly when the date has one; with unique dates it is the only one |
| Store.Roster | server.js:87-88 | `record ? record.users : []`: the empty list when the date has no record, otherwise the list of a record of that date; with unique dates, the list of every record of that date |
| Store.UpsertRecord | server.js:107-111 | after the upsert the date's record holds exactly the new list; every other date's record is unchanged |
| Store.UpsertRecordKeepsUnique | server.js:21 | an upsert adds at most its own date and keeps dates unique |
| Store.UpsertRecordOverwrites | server.js:107-111 | a second upsert of a date replaces the first one's list outright (so repeating one is idempotent) |
| Store.RecordsContaining | server.js:127 | `find({users: name})` keeps exactly the records whose list holds the name, never more than there are, and keeps dates unique |
| Store.RecordsInMonth | server.js:165 | the regex query keeps exactly the records whose date starts with the month key, never more than there are, and keeps dates unique |
| Store.MonthCountMatchesDates | server.js:165-166 | with unique dates, the number of records the month query returns is the number of dates in the collection that start with the month key |
| Store.DatesOf | server.js:128 | the map to dates has one date per record, in order |
| Store.HistoryMatchesRosters | server.js:127-129 | with unique dates, the history's dates have no repeats, a date is among them exactly when the name is on that date's list, and their number is the number of such dates |
| Server.MarkDecision | server.js:99-106 | a save is refused as not today exactly when the date differs from today's key; it is refused for lack of rights exactly when the date is today's and the requester is no admin; with unique names it goes through exactly when the date is today's and the requester's account is an admin |
| Server.MarkReply.Status | server.js:100-113 | the reply's HTTP status is 403 exactly for the missing admin right, and 200 otherwise |
| Server.MarkReply.Message | server.js:100-113 | the reply carries no message exactly on success; a wrong date gets "Attendance can only be marked for today." and a non-admin "Admin access required" |
| Server.HistoryAccess | server.js:123-125 | with unique names, a history is served exactly when the requester has an account that is an admin or is the student |
| Server.Percentage | server.js:145-147 | the result is the whole percentage nearest to present/13 (within half a point) |
| Server.PercentageFacts | server.js:145-147 | the percentage grows with the count; 13 gives 100, 2 gives 15, 14 gives 108, and any count up to 13 gives at most 100 |
| Server.SeedAll | server.js:52-58 | upserting the seed entries in turn leaves exactly the names the collection held plus the names of the entries |
| Server.SeedAllKeepsUnique | server.js:52-58 | seeding keeps usernames unique |
| Server.SeedAllKeepsOthers | server.js:52-58 | seeding leaves every unlisted account as it was |
| Server.SeedAllListed | server.js:52-58 | after seeding distinct names, each listed account holds its entry's fields, and its admin flag is kept when the entry sets none |
| Server.SeedAccountsDistinct | server.js:35-51 | no two seed entries share a username |
| Server.SeededAdmin | server.js:35-51 | the fourteen seed names are distinct, and after seeding `admin` is an admin with password `admin123`, whatever the collection held |
| Server.LoginMatchesAccount | server.js:73-77 | with unique names, a login succeeds exactly when the named account exists and its password matches, so an unknown name and a wrong password fail alike |
| Server.Backend.constructor | server.js:20-32 | both collections start empty, and the unique indexes hold |
| Server.Backend.SeedUsers | server.js:34-59 | the users collection becomes the result of upserting each entry in order; attendance is untouched and the indexes hold |
| Server.Backend.Login | server.js:70-82 | success exactly when an account has that name and password, with the account's admin flag; a failure is always "Invalid credentials" |
| Server.Backend.GetRoster | server.js:84-93 | the date's record's list, or the empty list when the date has no record |
| Server.Backend.MarkAttendance | server.js:95-117 | the reply is MarkDecision on the clock's key; only an accepted save changes attendance, and then exactly by the upsert; users are untouched and the indexes hold |
| Server.Backend.UserHistory | server.js:119-133 | denied exactly when HistoryAccess refuses; otherwise totalDays equals the number of dates, the dates have no repeats, and a date is listed exactly when the student is on that date's list |
| Server.Backend.Analytics | server.js:135-175 | 30 daily entries, oldest first, each the day's key and the percentage of its list; one total per student, in list order, equal to the days present; 12 monthly entries, oldest first, each the month's key and the number of stored dates that start with it |
| Server.Backend.DailyPercentages | server.js:138-149 | 30 entries, oldest first, each the day's key and the percentage of the names on that day's list |
| Server.Backend.StudentTotals | server.js:151-157 | one entry per name of the class list, in its order, each the number of stored days whose list holds the name |
| Server.Backend.MonthlySummary | server.js:159-168 | 12 entries, oldest first, each the month's key and the number of stored dates that start with it |
| Admin.Without | src/Admin.jsx:58 | the filter removes every copy of the name and keeps every other name with its multiplicity; a list without the name is unchanged |
| Admin.WithoutConcat | src/Admin.jsx:58 | filtering a concatenation filters each part and keeps the parts in order, so the remaining names keep their order |
| Admin.WithoutSingle | src/Admin.jsx:58 | on one entry the filter drops the name and keeps anything else |
| Admin.Toggle | src/Admin.jsx:56-60 | the name's membership flips and no other name's membership changes; an unticked name is appended at the end, and a ticked one is filtered out with the rest in order |
| Admin.ToggleTwice | src/Admin.jsx:56-60 | toggling an unticked name twice restores the list; toggling a ticked name twice moves it to the end |
| Admin.WithoutKeepsDistinct | src/Admin.jsx:58 | filtering keeps a list free of repeats |
| Admin.ToggleKeepsDistinct | src/Admin.jsx:56-60 | toggling keeps a selection free of repeats |
| Admin.PieSlices | src/Admin.jsx:44-49 | Present is the list's length and Absent the rest of the panel's own thirteen-name list (src/Admin.jsx:6); they add up to thirteen, and Absent is negative exactly when more than thirteen names arrive |
| Admin.IsFutureDate | src/Admin.jsx:78 | the chosen date sorts after today's UTC key, so a future date is never today's key and never sorts before it |
| Admin.FutureDateIsLater | src/Admin.jsx:78 | for four-digit years, `isFutureDate` holds exactly when the chosen date is later than today |
| Admin.SaveRequest | src/Admin.jsx:63-68 | the posted body carries the selection and no date, and the server refuses it as not today for every collection, requester and day |
| Admin.AdminPanel.constructor | src/Admin.jsx:10-16 | the initial state: no date, no selection, no view, no list, no message, not saved, no pie |
| Admin.AdminPanel.ListedNames | src/Admin.jsx:116-121 | the date view lists no names exactly when the date is in the future, and lists the loaded list otherwise |
| Admin.AdminPanel.SetDate | src/Admin.jsx:19-23 | the date becomes the given one |
| Admin.AdminPanel.SetView | src/Admin.jsx:84-85 | the view becomes the chosen one |
| Admin.AdminPanel.LoadAttendance | src/Admin.jsx:35-51 | in the mark view the list becomes the selection, locked exactly when it is not empty; otherwise it becomes the shown list and the pie; nothing else changes |
| Admin.AdminPanel.OnViewOrDateChange | src/Admin.jsx:25-33 | nothing changes without a date or an open view; otherwise the day's list is loaded as above |
| Admin.AdminPanel.HandleCheckboxChange | src/Admin.jsx:53-61 | a saved day's selection never changes; otherwise the name is toggled |
| Admin.AdminPanel.HandleSave | src/Admin.jsx:63-76 | the request is SaveRequest of the selection; a successful reply locks the selection and shows "Attendance saved"; any other reply changes nothing |
| Leaderboard.MaxFrom | src/Leaderboard.jsx:17 | the index of a largest total in the unsorted part |
| Leaderboard.Swap | src/Leaderboard.jsx:17 | the sort's exchange step: two entries trade places, every other entry stays, and the array holds the same entries |
| Leaderboard.SortByTotalDescending | src/Leaderboard.jsx:17 | afterwards totals never increase along the array, and the array holds the same entries as before |
| Leaderboard.Ranked | src/Leaderboard.jsx:45-51 | one row per entry with rank i+1; over sorted totals the totals never rise down the table and the first row holds a largest total |
| Leaderboard.LeaderboardView.constructor | src/Leaderboard.jsx:4-6 | no totals, loading, no error |
| Leaderboard.LeaderboardView.FetchTotals | src/Leaderboard.jsx:8-28 | an ok reply with totals stores them sorted from the highest and as a permutation of what arrived; any other outcome sets "Failed to load leaderboard." and keeps the totals; loading ends on every path |
| Leaderboard.LeaderboardView.Render | src/Leaderboard.jsx:30-54 | the loading text exactly while loading, then the error text exactly when there is an error, and otherwise the ranked table of the stored totals |
| Leaderboard.Mount | src/Leaderboard.jsx:8-31 | a fresh view after one fetch shows, on success, the ranked table of a rearrangement of exactly the totals received, highest first, one row per total; on any failure, the error text |

## Left out

- HTTP and process wiring are not modelled: Express, CORS, dotenv, `mongoose.connect`, `listen`, and the `/` and `/test` routes (server.js:1-18, 177-191). They hold no logic of the core.
- Store failures are not modelled. The `catch` branches that answer 500 (server.js:79-81, 90-92, 114-116, 130-132, 171-174) and the seeding `catch` (server.js:55-57) are left out, because the collections in the model cannot fail.
- Concurrency is not modelled. Requests run one at a time, and each upsert is atomic.
- The clock is a parameter. `getTodayServer` takes the local year, month and day as a `LocalDate`.
- Server.Backend.Analytics: takes `dayKey(i)` and `monthKey(i)` as parameters. It does not model the `setDate` and `setMonth` calendar arithmetic, the UTC conversion of `toISOString`, or `setMonth`'s overflow on the 29th to 31st of a month.
- Server.Percentage: uses the integer formula `(200p + 13) / 26` instead of floating-point `Math.round`. The two agree for a class of 13, because p/13 is never exactly halfway between two whole percentages. The `total > 0` guard (server.js:147) is dead with the constant 13.
- DateKeys.Less: compares `char` values. JavaScript compares UTF-16 code units, which differs only outside the Basic Multilingual Plane.
- Store.RecordsInMonth: treats the `^${month}` regular expression as a literal prefix. For four-digit years a month key holds only digits and a dash, so this is exact. `toISOString` writes years outside 0-9999 as `+YYYYYY` or `-YYYYYY`, and `+` is a regular-expression operator; such years are not modelled.
- Server.Backend.Login: the body's username and password, and the `?user=` requester of the other routes, are strings. Missing fields and non-string JSON values are not modelled. `express.json()` can deliver an object such as `{"$ne": ""}` as the password, which Mongoose would read as a query operator (server.js:71-73), so the "exactly when an account has that name and password" contract holds only for string fields.
- Admin.AdminPanel.LoadAttendance: reads the current view. In the source each asynchronous load uses the view captured when its effect ran (src/Admin.jsx:35-39), so overlapping loads after a quick view switch can land in either branch. Overlapping client loads are not modelled.
- Admin.AdminPanel.SetDate: the panel fetches `/api/today` (src/Admin.jsx:19-23), but server.js defines no such route. The model only lets the date arrive by `SetDate`; the failed fetch is not modelled.
- Admin.AdminPanel.HandleSave: takes the reply's `success` flag as a parameter instead of linking it to `Backend.MarkAttendance`. `Admin.SaveRequest` states separately what the backend answers.
- Leaderboard.SortByTotalDescending, Leaderboard.LeaderboardView.FetchTotals and Leaderboard.Mount: do not promise stability. `Array.prototype.sort` is stable, so students with equal totals keep the server's order; the selection sort here may reorder them. For totals [A:1, B:1, C:2] the model may show C, B, A where the source shows C, A, B.
- Fetching and rendering are not modelled: network requests, JSON decoding, JSX and the recharts pie. They become the parameters of the handlers and the `Display` value.
- `App.jsx` and the rest of the frontend are not part of this model.
