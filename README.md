# Weekly task distribution — a Dafny model

The system is a small multi-company web application. Users register into a company and a named
team. Once a team has exactly six active members, the weekly generator gives each member one task
per working day, Monday to Saturday. The six task types are handed out as a cyclic Latin square:
on day `d`, slot `s` (the `s`-th easiest type) goes to member `(s + d) mod 6`. Over the week,
every member gets every type exactly once. Users then move their tasks through `NotStarted`,
`InProgress` and `Completed`. The listing and statistics endpoints, and the dashboard page, show a
company's week.

The model follows the source's modules:

- `Calendar`: the .NET date arithmetic the controllers use.
  - Days are counted from 0001-01-01, a Monday.
  - `DayOfWeek`, `Year` and `DayOfYear` follow the runtime's 400/100/4/1-year decomposition.
  - `GetMondayOfWeek` is `MondayOf`.
  - `GetWeekOfYear` with the `FirstDay` rule and Monday as the first day is `WeekOfYear`.
- `Models`: the stored records, the status enumeration and its `ToString`, and the declared field
  limits. It also holds the four-table invariant `TablesValid`:
  - ids are autoincrement positions;
  - e-mail addresses are unique;
  - foreign keys resolve.
- `Engine`: `TaskService.GenerateWeeklyTasks`.
  - `Generate` is the reference function. It takes the week key (week number and year) as
    parameters; `GenerateWeek` computes the key of the requested Monday, as the service does.
  - `GenerateWeek`, `CheckTeamSizes` and `BuildWeekTasks` are the service's steps and loops, each
    proved equal to it.
  - The lemmas state its error cases as if-and-only-ifs, and state the Latin-square coverage.
- `Queries`: the weekly listing, the statistics, and the status update of `TasksController`.
- `Auth`: `Register`, `Login` and `GetCompanies` of `AuthController`.
- `Seeder`: `DbSeeder.SeedData`.
- `Dashboard`: the list helpers of the dashboard page.
- `Store`: the database context as a class (`Store.Database`).
  - Its four tables are sequence fields that the operations reassign in place.
  - Each method is proved against the pure function above and keeps `TablesValid`.
- `Seqs` and `Ordering`: sequence helpers.
  - `Filter` is LINQ `Where`.
  - `FirstOccurrences` is the "first index with this key" filter.
  - `Distinct` is a JavaScript `Set`.
  - `SortBy` is an insertion sort with composite keys, standing for `OrderBy`/`ThenBy`. Its
    contract states that the result is sorted and a permutation of the input.

The week-existence check of the generator is global, not per company, as the code has it. So once
one company has generated a week, generating that week for any other company fails
(`Store.GenerateTwiceFails`). The model keeps this behaviour.

The dashboard computes "this week's Monday" as today minus `getDay()` plus one. That differs from
the server's Monday on Sundays, and the model states the difference as a lemma.

## Model

| member | source | states |
|---|---|---|
| Calendar.DayOfWeek | TaskManagerAPI/Controllers/TasksController.cs:175-179 | the weekday is in 0..6 (Sunday = 0), and Monday falls exactly on days that are multiples of seven from 0001-01-01 |
| Calendar.Year | TaskManagerAPI/Controllers/TasksController.cs:31 | `DateTime.Year` from the 400/100/4/1-year decomposition; its contract states only that the year is at least 1, and `YearStartClosedForm` and `YearStartOfYearStart` pin down its meaning |
| Calendar.Split | TaskManagerAPI/Controllers/TasksController.cs:31 | a day count decomposes into 400-, 100-, 4- and 1-year periods plus a day in the year, within the period bounds; a day 366 of a year occurs only in the last year of a four-year period, and in a century's last four-year period only when the century ends a 400-year period |
| Calendar.DayOfYear | TaskManagerAPI/Controllers/TasksController.cs:31 | the day of the year lies between 1 and the length of the year |
| Calendar.YearStartClosedForm | TaskManagerAPI/Controllers/TasksController.cs:31 | 1 January of a date's year is the number of days before that year under the Gregorian leap-year rule |
| Calendar.YearStartOfYearStart | TaskManagerAPI/Controllers/TasksController.cs:31 | 1 January belongs to the year it starts and is day 1 of it |
| Calendar.MondayOf | TaskManagerAPI/Controllers/TasksController.cs:175-179 | the result is a Monday, on or before the date and less than seven days before it |
| Calendar.MondayOfWeekDays | TaskManagerAPI/Controllers/TasksController.cs:175-179 | every day of the week starting at Monday m resolves to m, so resolving twice equals resolving once |
| Calendar.SundayGoesBackSix | TaskManagerAPI/Controllers/TasksController.cs:177 | a Sunday resolves to the Monday six days earlier |
| Calendar.WeekOfYear | TaskManagerAPI/Services/TaskService.cs:125-129 | the week number lies in 1..54 |
| Calendar.WeekOfYearCountsMondays | TaskManagerAPI/Services/TaskService.cs:125-129 | the week number is one plus the number of whole weeks since the Monday of the week that holds 1 January |
| Calendar.WeekOneHoldsJanuaryFirst | TaskManagerAPI/Services/TaskService.cs:125-129 | a date is in week 1 exactly when it shares its Monday with 1 January |
| Calendar.JanuaryFirstIsWeekOne | TaskManagerAPI/Services/TaskService.cs:125-129 | 1 January is always in week 1 |
| Calendar.NextMondayNextWeek | TaskManagerAPI/Services/TaskService.cs:125-129 | two consecutive Mondays in the same year have consecutive week numbers |
| Calendar.WeekKeyDeterminesMonday | TaskManagerAPI/Services/TaskService.cs:43-54 | two Mondays with the same (week number, year) key are the same day, so the key identifies one generated week |
| Calendar.EarlyJanuaryResolvesToPreviousYear | TaskManagerAPI/Controllers/TasksController.cs:29-31 | 2021-01-01 is a Friday; its Monday, 2020-12-28, carries week 53 of 2020 |
| Calendar.FirstMondayOf2024 | TaskManagerAPI/Controllers/TasksController.cs:29-31 | 2024-01-01 is a Monday, resolves to itself, and is week 1 of 2024 |
| Models.StatusName | TaskManagerAPI/Models/Task.cs:31-36 | the string is one of the three enum names exactly when the stored value is one of the three named values |
| Models.ParseStatusNameRoundTrip | TaskManagerAPI/Controllers/TasksController.cs:122 | a parser that accepts the three names reads the name of a named status back as that status |
| Models.DecimalString | TaskManagerAPI/Models/Task.cs:31-36 | the printed number is non-empty and starts with a digit or a minus sign, and starts with a minus exactly for negative numbers |
| Models.DecimalStringInjective | TaskManagerAPI/Models/Task.cs:31-36 | different numbers print differently |
| Models.DayName | TaskManagerAPI/Services/TaskService.cs:131-135 | each of the six day names has 4 to 9 characters |
| Models.TaskTitle | TaskManagerAPI/Services/TaskService.cs:88 | the title is non-blank and at most 12 characters longer than the type name |
| Engine.CompanyUsers | TaskManagerAPI/Services/TaskService.cs:20-24 | the result is sorted by team name, then id, and is a permutation of the company's active users |
| Engine.CompanyUsersAreActiveMembers | TaskManagerAPI/Services/TaskService.cs:20-24 | a user is selected exactly when it is in the table, belongs to the company and is active |
| Engine.TeamCount | TaskManagerAPI/Controllers/AuthController.cs:44-46 | defined as the number of active users of the company in the team; `TeamSizeIsTeamCount` ties it to a group's size and `TeamCountAppend` to registration |
| Engine.GroupByTeam | TaskManagerAPI/Services/TaskService.cs:32 | the groups have distinct team names, are non-empty, and come in order of the first occurrence of their name; each is an order-preserving subsequence of the input holding only users of that team; every user is in the group of its team |
| Engine.Teams | TaskManagerAPI/Services/TaskService.cs:20-32 | defined as the groups of the company's sorted active users; `TeamsOrderedByName` and `TeamMembersOrderedById` state their order |
| Engine.TeamsOrderedByName | TaskManagerAPI/Services/TaskService.cs:20-32 | the teams come in strictly increasing ordinal order of their names, so the week is appended, and numbered, team by team in that order |
| Engine.FirstBadTeamFrom | TaskManagerAPI/Services/TaskService.cs:35-41 | it finds nothing exactly when every team from position g on has six members; what it finds is such a team and its size is not six |
| Engine.CheckTeamSizes | TaskManagerAPI/Services/TaskService.cs:35-41 | the validation loop returns the first team whose size is not six, or none |
| Engine.Generate | TaskManagerAPI/Services/TaskService.cs:17-102 | the reference generator: no active user, then the first team whose size is not six, then the week check, then the type count, then the plan; each case is stated as an if-and-only-if by the `Generate*` lemmas below |
| Engine.GenerateForTeams | TaskManagerAPI/Services/TaskService.cs:46-102 | once the teams are full, the only errors left are the week check and the type count |
| Engine.TypesByDifficulty | TaskManagerAPI/Services/TaskService.cs:57-59 | the types are a permutation of the table, in non-decreasing difficulty |
| Engine.WeekPlan | TaskManagerAPI/Services/TaskService.cs:66-102 | the plan holds 36 tasks per team |
| Engine.PlannedTask | TaskManagerAPI/Services/TaskService.cs:76-97 | defined as the task of day d, slot s: the s-th type in difficulty order for member (s + d) mod 6, dated Monday plus d, due that day, NotStarted, with the week key; `PlanFields` and `PlanEntryParts` state these fields of each plan entry |
| Engine.BuildWeekTasks | TaskManagerAPI/Services/TaskService.cs:66-102 | the three nested assignment loops build exactly the week plan |
| Engine.GenerateWeek | TaskManagerAPI/Services/TaskService.cs:17-102 | the service's steps (the week key of the Monday, four checks in order, then the loops) return what the reference generator returns for that key |
| Engine.HasActiveUserIff | TaskManagerAPI/Services/TaskService.cs:26-29 | the selected user list is non-empty exactly when the company has an active user |
| Engine.TeamSizeIsTeamCount | TaskManagerAPI/Services/TaskService.cs:32-41 | the size of a team's group is the number of active users of the company with that team name |
| Engine.TeamsOfSixIff | TaskManagerAPI/Services/TaskService.cs:35-41 | every group has six members exactly when every team of the company has six active users |
| Engine.GenerateNoActiveUsers | TaskManagerAPI/Services/TaskService.cs:26-29 | generation fails with "no active users" exactly when the company has no active user |
| Engine.NoBadTeamIff | TaskManagerAPI/Services/TaskService.cs:35-41 | the validation finds no team exactly when every team of the company has six active users |
| Engine.FirstBadTeamOfCompany | TaskManagerAPI/Services/TaskService.cs:35-41 | the validation finds a team exactly when some team of the company is not full; that team's size is its active count and it is the team of an active user of the company |
| Engine.GenerateTeamSizeInvalid | TaskManagerAPI/Services/TaskService.cs:35-41 | generation fails on team size exactly when the company has active users but some team does not have six; the error names an existing team of the company and its actual size, which is not six |
| Engine.GenerateWeekAlreadyGenerated | TaskManagerAPI/Services/TaskService.cs:43-54 | generation fails on the week check exactly when the team checks pass and some task of any company carries the week key; the error carries that year and week |
| Engine.GenerateTaskTypeCountInvalid | TaskManagerAPI/Services/TaskService.cs:57-64 | generation fails on the type count exactly when every earlier check passes and there are not six types; the error carries their number |
| Engine.GenerateSucceeds | TaskManagerAPI/Services/TaskService.cs:17-64 | generation succeeds exactly when all four checks pass |
| Engine.GeneratedPlan | TaskManagerAPI/Services/TaskService.cs:66-102 | on success, the result is the plan over the company's teams and the types in difficulty order |
| Engine.DayAssignsEachMemberOnce | TaskManagerAPI/Services/TaskService.cs:79-84 | on each day, each of a team's six members gets exactly one of the six slots |
| Engine.WeekGivesEachMemberEachTypeOnce | TaskManagerAPI/Services/TaskService.cs:74-84 | over the six days, each member gets each task type in exactly one (day, slot) |
| Engine.PlanOneTaskPerMemberPerDay | TaskManagerAPI/Services/TaskService.cs:69-102 | in the whole plan, each member of each team has exactly one task on each day, at a known position |
| Engine.PlanEachTypeOncePerMember | TaskManagerAPI/Services/TaskService.cs:69-102 | in the whole plan, each member of each team has each type exactly once, at a known position |
| Engine.GroupsHaveDistinctMemberIds | TaskManagerAPI/Services/TaskService.cs:32 | grouping users with unique ids gives ids that are unique across all groups |
| Engine.TeamsHaveDistinctMemberIds | TaskManagerAPI/Services/TaskService.cs:20-32 | with unique user ids, no id appears twice across the company's teams |
| Engine.GroupMembersOrderedById | TaskManagerAPI/Services/TaskService.cs:32 | within a group built from users sorted by team and id, members are in increasing id order |
| Engine.TeamMembersOrderedById | TaskManagerAPI/Services/TaskService.cs:71 | the member list whose index picks the assignee is in increasing id order |
| Engine.GeneratedTasksShape | TaskManagerAPI/Services/TaskService.cs:86-97 | every generated task starts NotStarted, is due the day it is assigned, falls Monday to Saturday of the week and carries the given week key, belongs to an active user of the company, and is made from one task type (title, description and type id); there are 36 tasks per team |
| Engine.GeneratedTaskSource | TaskManagerAPI/Services/TaskService.cs:86-97 | each generated task belongs to an active user of the company in the table and is made from a task type of the table |
| Engine.GeneratedTasksAreValid | TaskManagerAPI/Models/Task.cs:9-14 | with task types within their declared limits, every generated task has a non-blank title of at most 200 characters and a description of at most 500 |
| Engine.GenerateOneTaskPerUserPerDay | TaskManagerAPI/Services/TaskService.cs:17-107 | on success, each active user of the company has exactly one task on each of the six days |
| Engine.GenerateEachTypeOncePerUser | TaskManagerAPI/Services/TaskService.cs:17-107 | on success, with unique ids, each active user of the company gets each task type exactly once in the week |
| Queries.UserById | TaskManagerAPI/Controllers/TasksController.cs:115-117 | a lookup finds a table row with the id, and finds nothing exactly when no row has it |
| Queries.TypeById | TaskManagerAPI/Controllers/TasksController.cs:60 | a lookup finds a type with the id, and finds nothing exactly when no type has it |
| Queries.UserByIdFindsUser | TaskManagerAPI/Controllers/TasksController.cs:33-34 | with unique ids, looking up a stored user's id finds that user |
| Queries.JoinUsers | TaskManagerAPI/Controllers/TasksController.cs:33-34 | the join pairs tasks with their existing users and keeps every task whose user exists |
| Queries.CompanyWeekRows | TaskManagerAPI/Controllers/TasksController.cs:29-38 | defined as the joined rows whose user is in the company and whose task carries the week key of the date's Monday; `WeeklyTasks` and `TaskStatistics` are stated against it |
| Queries.WeeklyTasks | TaskManagerAPI/Controllers/TasksController.cs:23-83 | the listed week runs from the date's Monday to the Sunday after it and carries that Monday's week key; rows are sorted by date, team and difficulty, are exactly the joined rows of the company with that key, and are a permutation of those rows in table order |
| Queries.WeeklyTasksListsCompanyWeek | TaskManagerAPI/Controllers/TasksController.cs:33-42 | a stored task is listed exactly when its user exists and is in the company, and the task carries the week key of the requested date |
| Queries.CountStatus | TaskManagerAPI/Controllers/TasksController.cs:162-164 | a status count never exceeds the number of rows |
| Queries.CountsAddUp | TaskManagerAPI/Controllers/TasksController.cs:159-165 | the three counts sum to at most the row count, and to exactly the row count when every status is a named one |
| Queries.TaskStatistics | TaskManagerAPI/Controllers/TasksController.cs:142-173 | completed, in-progress and not-started sum to at most the total |
| Queries.StatisticsMatchListing | TaskManagerAPI/Controllers/TasksController.cs:152-165 | the statistics total is the number of tasks the weekly listing shows; the counts add up to it when those tasks have named statuses |
| Queries.WithStatus | TaskManagerAPI/Controllers/TasksController.cs:125 | defined as the table with one task's status replaced; `UpdateStatus`, `UpdateKeepsWeeklyTotal` and `UpdateKeepsValid` state what the update does |
| Queries.UpdateStatus | TaskManagerAPI/Controllers/TasksController.cs:115-126 | not found exactly when no task has the id; invalid status exactly when one does but the text does not parse; otherwise the task with the id gets the parsed status and every other row stays |
| Queries.UpdateWithStatusName | TaskManagerAPI/Controllers/TasksController.cs:115-126 | sending back the name of a named status for an existing task succeeds and stores that status |
| Queries.StatusChangeKeepsRowCount | TaskManagerAPI/Controllers/TasksController.cs:152-157 | changing statuses does not change how many rows the weekly filter selects |
| Queries.UpdateKeepsWeeklyTotal | TaskManagerAPI/Controllers/TasksController.cs:110-140 | a status update leaves every company's weekly total unchanged |
| Auth.RegisterUser | TaskManagerAPI/Controllers/AuthController.cs:28-64 | e-mail in use exactly when some user has the address; company not found exactly when the address is free and no company has the id; team full exactly when both pass and the team already has six or more active members; otherwise an active user with the request's fields, the given hash and the next id |
| Auth.TeamCountAppend | TaskManagerAPI/Controllers/AuthController.cs:44-46 | appending a user raises its own team's active count by one if it is active, and changes no other count |
| Auth.RegisterKeepsTeamsAtMostSix | TaskManagerAPI/Controllers/AuthController.cs:43-51 | if no team has more than six active users, none has after a registration |
| Auth.RegisterKeepsEmailsUnique | TaskManagerAPI/Data/AppDbContext.cs:40-42 | registration keeps e-mail addresses unique |
| Auth.Login | TaskManagerAPI/Controllers/AuthController.cs:98-105 | success returns a stored user with the address whose hash accepts the password, and that user is the first row with the address; every failure is the same "invalid credentials" error; an unknown address always fails |
| Auth.LoginSucceedsIff | TaskManagerAPI/Controllers/AuthController.cs:98-105 | with unique addresses, login succeeds exactly when a stored user with the address has a hash that accepts the password, whatever its active flag |
| Auth.NameKeyOrder | TaskManagerAPI/Controllers/AuthController.cs:137 | names in non-decreasing sort-key order are never in strictly decreasing ordinal order |
| Auth.SortedActiveCompanies | TaskManagerAPI/Controllers/AuthController.cs:135-143 | the projected, sorted active companies are a permutation of the projected active companies of the table, in name order |
| Auth.GetCompanies | TaskManagerAPI/Controllers/AuthController.cs:135-143 | every entry is an active company; every active company is listed; the entries are a permutation of the (id, name) pairs of the active companies, so each appears as often as in the table; entries are ordered by name |
| Auth.EntriesPermutation | TaskManagerAPI/Controllers/AuthController.cs:135-143 | projecting two permutations of each other to (id, name) gives permutations of each other |
| Seeder.SeedCompanies | TaskManagerAPI/Data/DbSeeder.cs:29-46 | defined as the fifteen seeded companies, active, with the ids an empty table hands out; `SeedCompaniesAndAdmin` and `SeedKeepsValid` state what seeding does with them |
| Seeder.Seed | TaskManagerAPI/Data/DbSeeder.cs:7-68 | defined as the tables after seeding; `SeedEstablishesSixTaskTypes`, `SeedCompaniesAndAdmin` and `SeedIdempotent` state what it does |
| Seeder.SeedTaskTypesValid | TaskManagerAPI/Data/DbSeeder.cs:12-20 | every seeded task type is within the limits the record declares |
| Seeder.SeedEstablishesSixTaskTypes | TaskManagerAPI/Data/DbSeeder.cs:10-24 | seeding an empty type table gives six valid types with difficulty levels 1 to 6 in order; a table with rows is left alone |
| Seeder.SeedCompaniesAndAdmin | TaskManagerAPI/Data/DbSeeder.cs:27-67 | seeding an empty company table adds fifteen active companies and appends the active admin in the first company; otherwise companies and users stay; tasks never change |
| Seeder.SeedIdempotent | TaskManagerAPI/Data/DbSeeder.cs:7-68 | seeding a seeded database changes nothing |
| Seeder.AdminTeamCount | TaskManagerAPI/Data/DbSeeder.cs:53-63 | the admin's team has one active member |
| Seeder.SeedThenGenerateFails | TaskManagerAPI/Data/DbSeeder.cs:52-63 | right after seeding an empty database, generation for the first company fails on the team-size check, naming "Admin Ekibi" with one member |
| Dashboard.ToView | TaskManagerAPI/Controllers/TasksController.cs:52-74 | the projection carries the task's id and dates, its user's id and team, and its type's difficulty (0 when missing); the status string is an enum name exactly when the status is a named one |
| Dashboard.PageMonday | TaskManagerFrontend/src/pages/Dashboard.js:106-107 | the page's Monday is a Monday, and at most six days before the day after today |
| Dashboard.PageMondayAgreesExceptSunday | TaskManagerFrontend/src/pages/Dashboard.js:106-107 | Monday to Saturday it equals the server's Monday; on a Sunday it is the next day, a week after the server's Monday |
| Dashboard.SundayDayFilterMissesListedWeek | TaskManagerFrontend/src/pages/Dashboard.js:102-112 | on a Sunday, every date the day filter selects lies after the week the server lists |
| Dashboard.DayIndex | TaskManagerFrontend/src/pages/Dashboard.js:103-104 | the index is -1 exactly for a value that is not a day name, and otherwise names that day |
| Dashboard.FilteredTasks | TaskManagerFrontend/src/pages/Dashboard.js:98-126 | a task is kept exactly when it matches the day filter (if the value names a day), the user filter (printed id) and the team filter; with no effective filter the list is unchanged |
| Dashboard.FilteredTasksIsFilter | TaskManagerFrontend/src/pages/Dashboard.js:98-126 | the three filters in turn equal one filter by `Shown`: every copy of a task that passes is kept, in input order |
| Dashboard.FilteredTasksIsSubseq | TaskManagerFrontend/src/pages/Dashboard.js:98-126 | the filtered list keeps the tasks' order |
| Dashboard.UniqueUsers | TaskManagerFrontend/src/pages/Dashboard.js:129-134 | an order-preserving subsequence of the tasks' users with one record per id; every user id of the tasks appears; each kept record is the first with its id; records are in order of first occurrence |
| Dashboard.UniqueTeams | TaskManagerFrontend/src/pages/Dashboard.js:137-140 | each team name of the tasks appears exactly once, nothing else appears, in order of first occurrence |
| Dashboard.StatusText | TaskManagerFrontend/src/pages/Dashboard.js:88-95 | defined as the Turkish label of the three status names, any other string unchanged; `StatusLabelOfListedStatus` and `StatusLabelsDistinguishStatuses` state its behaviour on listed statuses |
| Dashboard.StatusColor | TaskManagerFrontend/src/pages/Dashboard.js:79-86 | defined as the badge colour of the three status names, grey otherwise; `StatusLabelOfListedStatus` states that grey marks exactly the unnamed statuses |
| Dashboard.StatusLabelOfListedStatus | TaskManagerFrontend/src/pages/Dashboard.js:79-95 | a named status gets a Turkish label different from its name; any other status shows its number; the grey badge marks exactly the statuses without a name |
| Dashboard.StatusLabelsDistinguishStatuses | TaskManagerFrontend/src/pages/Dashboard.js:88-95 | different stored statuses get different labels |
| Models.TablesValid | TaskManagerAPI/Data/AppDbContext.cs:21-42 | defined as the database invariant: ids are positions plus one, e-mail addresses are unique, and every user's company and every task's user and task type exist; every `Store` operation keeps it |
| Store.ValidIdsDistinct | TaskManagerAPI/Models/Task.cs:7 | in a consistent database, user, task-type and task ids are unique |
| Store.ForeignKeysNeedRows | TaskManagerAPI/Data/AppDbContext.cs:21-37 | in a consistent database, a user needs a company and a task needs a user |
| Store.SeedKeepsValid | TaskManagerAPI/Data/DbSeeder.cs:7-68 | seeding keeps the database consistent |
| Store.RegisterKeepsValid | TaskManagerAPI/Controllers/AuthController.cs:54-67 | a successful registration keeps the database consistent |
| Store.Numbered | TaskManagerAPI/Services/TaskService.cs:104-105 | defined as the plan with ids from `firstId` on; `Database.GenerateWeeklyTasks`, `GenerateKeepsValid` and `GenerateTwiceFails` state what the insert does |
| Store.GenerateKeepsValid | TaskManagerAPI/Services/TaskService.cs:104-105 | inserting a generated week keeps the database consistent |
| Store.AppendTasksKeepsValid | TaskManagerAPI/Services/TaskService.cs:104-105 | appending tasks that take the next ids and refer to existing users and task types keeps the database consistent |
| Store.GenerateTwiceFails | TaskManagerAPI/Services/TaskService.cs:47-54 | after a successful generation, generating the same week fails for every company, and with the "week already generated" error for any company that passes the team checks |
| Store.UpdateKeepsValid | TaskManagerAPI/Controllers/TasksController.cs:125-126 | a status update keeps the database consistent |
| Store.Database.constructor | TaskManagerAPI/Data/AppDbContext.cs:12-15 | a new context has four empty tables and is consistent |
| Store.Database.SeedData | TaskManagerAPI/Data/DbSeeder.cs:7-68 | the tables become the seeded tables and stay consistent |
| Store.Database.Register | TaskManagerAPI/Controllers/AuthController.cs:23-91 | the result is the registration function's; the user table grows by the new user exactly on success; no other table changes; the database stays consistent |
| Store.Database.GenerateWeeklyTasks | TaskManagerAPI/Services/TaskService.cs:17-108 | a failed check returns its error and changes nothing; success appends the numbered week to the task table and returns it; the database stays consistent |
| Store.Database.UpdateTaskStatus | TaskManagerAPI/Controllers/TasksController.cs:110-140 | the task table becomes the result of the update function, unchanged on error; other tables stay; on success the answer carries the task id and the new status's name; the database stays consistent |

## Left out

- Entity Framework, SQL, `async` and `SaveChanges` are out. Each operation is one atomic step on the table sequences. Concurrent requests are not modelled, so neither is the race between the week check and the insert.
- Row ids are modelled as table position plus one. This assumes rows are never deleted, which holds for every operation here.
- `Include` of a missing user is an inner join (`JoinUsers`). The database's foreign keys make this case impossible in a consistent store (`Store.ForeignKeysNeedRows`).
- `Include(t => t.TaskType)` on the required task-type key is an inner join as well, so a task whose type is missing is not listed. The model keeps such a row and gives it difficulty 0 (`Queries.Difficulty`), as the projection's `?? 0` would. A consistent store has no such task (`Models.TablesValid`).
- The SQL tie order of `OrderBy`/`ThenBy` on equal keys is unspecified. The model fixes one order (insertion sort) but states nothing about ties.
- String ordering is ordinal on characters. Database collations and culture-sensitive comparison are not modelled.
- JWT tokens are not part of this model.
- BCrypt hashing and verification are given as a hash value and a `verify` predicate.
- Register and Login response bodies are not modelled: messages, the token, and the company name.
- The generate endpoint's response message is not modelled. Its week number and year are the generator's week key.
- HTTP status codes and the catch-all 500 handlers are not modelled.
- `Enum.TryParse` is a `parse` parameter. Numeric strings, comma-joined names and case rules are not modelled. `Models.ParsesStatusNames` states the one assumption the lemmas make: the three names parse to their own values.
- `DateTime.Now` is a parameter: the request date and the dashboard's "today" are inputs.
- `CreatedDate` fields are not part of this model.
- Dates are whole days. The time of day, and the JavaScript `Date` time zone and `toISOString` conversion, are not modelled. `Dashboard.PageMonday` assumes local and UTC dates agree.
- The `DateTime` upper bound (year 9999) is not modelled, so `AddDays` never overflows here.
- String lengths are counted in Dafny characters, not UTF-16 code units. `Models.IsWhiteSpace` covers the ASCII white space and the no-break space, not every Unicode separator.
- The projection's `taskType` sub-object and the user's display name and e-mail in `ToView` are carried but not stated in its contract.
- `GetTaskTemplates` in `TaskService.cs` is never called, and is not part of this model.
- Console logging, the React components, routing and the session storage of the frontend are not modelled.
- `UpdateTaskStatus` loads the task with `Include(t => t.User)`, an inner join, so a task whose user row is missing reads as not found. `Queries.UpdateStatus` looks the task up without its user. The two agree whenever `Models.TablesValid` holds, and every `Store.Database` method keeps it.
- `Store.Database.UpdateTaskStatus` reads the task's user by position. Its contract does not state the user name in the answer.
- `Calendar.Year`: its contract states only that the year is at least 1. Its meaning is pinned down through `Calendar.YearStartClosedForm` and `Calendar.YearStartOfYearStart`.
