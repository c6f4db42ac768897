/** The read side of `TasksController`: the weekly listing and the weekly statistics of a company,
    the table lookups they join through, and the one-field status change. */
module Queries {

  import opened Seqs
  import opened Ordering
  import opened Calendar
  import opened Models

  /** `FirstOrDefault` on the user table by id. */
  function UserById(users: seq<User>, id: int): (r: Option<User>)
    ensures r.Some? ==> r.value in users && r.value.id == id
    ensures r.None? <==> forall i :: 0 <= i < |users| ==> users[i].id != id
  {
    var i := FindIndex(users, UserId, id);
    if i < 0 then None else Some(users[i])
  }

  /** `FirstOrDefault` on the task-type table by id. */
  function TypeById(types: seq<TaskType>, id: int): (r: Option<TaskType>)
    ensures r.Some? ==> r.value in types && r.value.id == id
    ensures r.None? <==> forall i :: 0 <= i < |types| ==> types[i].id != id
  {
    var i := FindIndex(types, TypeId, id);
    if i < 0 then None else Some(types[i])
  }

  /** With unique ids, looking up a user's id finds that user. */
  lemma UserByIdFindsUser(users: seq<User>, u: User)
    requires DistinctBy(users, UserId) && u in users
    ensures UserById(users, u.id) == Some(u)
  {
    var r := UserById(users, u.id);
    var a :| 0 <= a < |users| && users[a] == u;
    var b :| 0 <= b < |users| && users[b] == r.value;
    assert UserId(users[a]) == UserId(users[b]);
  }

  /** A task with the user it references (`Include(t => t.User)`, an inner join). */
  datatype TaskRow = TaskRow(task: TaskItem, user: User)

  function JoinUsers(tasks: seq<TaskItem>, users: seq<User>): (rows: seq<TaskRow>)
    ensures |rows| <= |tasks|
    ensures forall r :: r in rows ==> r.task in tasks && UserById(users, r.task.userId) == Some(r.user)
    ensures forall t :: t in tasks && UserById(users, t.userId).Some? ==> exists r :: r in rows && r.task == t
  {
    if tasks == [] then []
    else
      var rest := JoinUsers(tasks[1..], users);
      assert forall t :: t in tasks ==> t == tasks[0] || t in tasks[1..];
      match UserById(users, tasks[0].userId)
      case None => rest
      case Some(u) => [TaskRow(tasks[0], u)] + rest
  }

  /** The filter of the weekly queries: the task's user is in the company and the task carries the
      week key. */
  function InCompanyWeek(companyId: int, week: int, year: int): TaskRow -> bool
  {
    (r: TaskRow) => r.user.companyId == companyId && r.task.weekNumber == week && r.task.year == year
  }

  /** The rows of a company for the week that holds `date`, in table order. */
  function CompanyWeekRows(tasks: seq<TaskItem>, users: seq<User>, companyId: int, date: Day): seq<TaskRow>
  {
    var monday := MondayOf(date);
    Filter(JoinUsers(tasks, users), InCompanyWeek(companyId, WeekOfYear(monday), Year(monday)))
  }

  /** The projection's `TaskType?.DifficultyLevel ?? 0`. */
  function Difficulty(types: seq<TaskType>, typeId: int): int
  {
    match TypeById(types, typeId)
    case Some(tt) => tt.difficultyLevel
    case None => 0
  }

  /** `OrderBy(AssignedDate).ThenBy(User.TeamName).ThenBy(TaskType.DifficultyLevel)`. */
  function ListingOrder(types: seq<TaskType>): TaskRow -> SortKey
  {
    (r: TaskRow) => [Num(r.task.assignedDate), Text(r.user.teamName), Num(Difficulty(types, r.task.taskTypeId))]
  }

  datatype WeeklyListing = WeeklyListing(weekNumber: int, year: int, weekStart: Day, weekEnd: Day, tasks: seq<TaskRow>)

  /** `GetWeeklyTasks`: the week of `date` (Monday to the following Sunday) and the company's tasks
      of that week in listing order. */
  function WeeklyTasks(tasks: seq<TaskItem>, users: seq<User>, types: seq<TaskType>, companyId: int, date: Day)
    : (r: WeeklyListing)
    ensures r.weekStart <= date < r.weekStart + 7 && DayOfWeek(r.weekStart) == Monday
    ensures r.weekEnd == r.weekStart + 6
    ensures r.weekNumber == WeekOfYear(r.weekStart) && r.year == Year(r.weekStart)
    ensures SortedBy(r.tasks, ListingOrder(types))
    ensures multiset(r.tasks) == multiset(CompanyWeekRows(tasks, users, companyId, date))
    ensures forall row :: row in r.tasks <==>
      && row in JoinUsers(tasks, users)
      && row.user.companyId == companyId && row.task.weekNumber == r.weekNumber && row.task.year == r.year
  {
    var monday := MondayOf(date);
    var rows := CompanyWeekRows(tasks, users, companyId, date);
    var sorted := SortBy(rows, ListingOrder(types));
    assert forall row :: row in sorted <==> row in rows by {
      forall row ensures row in sorted <==> row in rows {
        assert row in multiset(sorted) <==> row in multiset(rows);
      }
    }
    WeeklyListing(WeekOfYear(monday), Year(monday), monday, monday + 6, sorted)
  }

  /** A task is listed exactly when its user exists, is in the company, and the task carries the
      week key of the requested date. */
  lemma WeeklyTasksListsCompanyWeek(tasks: seq<TaskItem>, users: seq<User>, types: seq<TaskType>, companyId: int,
                                    date: Day, t: TaskItem)
    requires t in tasks
    ensures var listing := WeeklyTasks(tasks, users, types, companyId, date);
      (exists row :: row in listing.tasks && row.task == t) <==>
        && UserById(users, t.userId).Some? && UserById(users, t.userId).value.companyId == companyId
        && t.weekNumber == WeekOfYear(MondayOf(date)) && t.year == Year(MondayOf(date))
  {
    var listing := WeeklyTasks(tasks, users, types, companyId, date);
    var user := UserById(users, t.userId);
    if user.Some? && user.value.companyId == companyId
       && t.weekNumber == WeekOfYear(MondayOf(date)) && t.year == Year(MondayOf(date)) {
      var row :| row in JoinUsers(tasks, users) && row.task == t;
      assert row in listing.tasks;
    }
  }

  /** `Count(t => t.Status == status)`. */
  function CountStatus(rows: seq<TaskRow>, status: int): (n: nat)
    ensures n <= |rows|
  {
    if rows == [] then 0
    else (if rows[0].task.status == status then 1 else 0) + CountStatus(rows[1..], status)
  }

  /** The three counts never exceed the number of rows, and add up to it when every status is one
      of the three named values. */
  lemma {:induction false} CountsAddUp(rows: seq<TaskRow>)
    ensures CountStatus(rows, Completed) + CountStatus(rows, InProgress) + CountStatus(rows, NotStarted) <= |rows|
    ensures (forall i :: 0 <= i < |rows| ==> IsNamedStatus(rows[i].task.status)) ==>
      CountStatus(rows, Completed) + CountStatus(rows, InProgress) + CountStatus(rows, NotStarted) == |rows|
  {
    if rows != [] {
      CountsAddUp(rows[1..]);
      assert forall i :: 1 <= i < |rows| ==> rows[1..][i - 1] == rows[i];
    }
  }

  datatype Statistics = Statistics(total: nat, completed: nat, inProgress: nat, notStarted: nat)

  /** `GetTaskStatistics` for the week that holds `date`. */
  function TaskStatistics(tasks: seq<TaskItem>, users: seq<User>, companyId: int, date: Day): (s: Statistics)
    ensures s.completed + s.inProgress + s.notStarted <= s.total
  {
    var rows := CompanyWeekRows(tasks, users, companyId, date);
    CountsAddUp(rows);
    Statistics(|rows|, CountStatus(rows, Completed), CountStatus(rows, InProgress), CountStatus(rows, NotStarted))
  }

  /** The statistics count the same tasks the weekly listing shows, and when every status stored
      for those tasks is a named one, the three counts add up to the total. */
  lemma StatisticsMatchListing(tasks: seq<TaskItem>, users: seq<User>, types: seq<TaskType>, companyId: int, date: Day)
    ensures var s := TaskStatistics(tasks, users, companyId, date);
      var listing := WeeklyTasks(tasks, users, types, companyId, date);
      && s.total == |listing.tasks|
      && ((forall i :: 0 <= i < |listing.tasks| ==> IsNamedStatus(listing.tasks[i].task.status)) ==>
            s.completed + s.inProgress + s.notStarted == s.total)
  {
    var rows := CompanyWeekRows(tasks, users, companyId, date);
    var listing := WeeklyTasks(tasks, users, types, companyId, date);
    assert listing.tasks == SortBy(rows, ListingOrder(types));
    if forall i :: 0 <= i < |listing.tasks| ==> IsNamedStatus(listing.tasks[i].task.status) {
      forall i | 0 <= i < |rows| ensures IsNamedStatus(rows[i].task.status) {
        assert rows[i] in multiset(listing.tasks);
      }
      CountsAddUp(rows);
    }
  }

  /** The table after `task.Status = status` on the task at position `i`. */
  function WithStatus(tasks: seq<TaskItem>, i: nat, status: int): (r: seq<TaskItem>)
    requires i < |tasks|
    ensures |r| == |tasks| && r[i].status == status
    ensures forall k :: 0 <= k < |tasks| && k != i ==> r[k] == tasks[k]
    ensures r[i] == tasks[i].(status := status)
  {
    tasks[i := tasks[i].(status := status)]
  }

  datatype UpdateError = TaskNotFound | InvalidStatus

  /** `UpdateTaskStatus` on the task table: the task is looked up before the status text is parsed,
      and only its status changes. */
  function UpdateStatus(tasks: seq<TaskItem>, taskId: int, statusText: string, parse: string -> Option<int>)
    : (r: Result<seq<TaskItem>, UpdateError>)
    ensures r == Err(TaskNotFound) <==> forall k :: 0 <= k < |tasks| ==> tasks[k].id != taskId
    ensures r == Err(InvalidStatus) <==>
      (exists k :: 0 <= k < |tasks| && tasks[k].id == taskId) && parse(statusText).None?
    ensures r.Ok? ==>
      && parse(statusText).Some? && |r.value| == |tasks|
      && exists i :: 0 <= i < |tasks| && tasks[i].id == taskId
           && r.value[i] == tasks[i].(status := parse(statusText).value)
           && forall k :: 0 <= k < |tasks| && k != i ==> r.value[k] == tasks[k]
  {
    var i := FindIndex(tasks, TaskId, taskId);
    if i < 0 then Err(TaskNotFound)
    else
      match parse(statusText)
      case None => Err(InvalidStatus)
      case Some(status) => Ok(WithStatus(tasks, i, status))
  }

  /** Sending back the name of a named status for an existing task succeeds and stores that status
      in the first task with the id. */
  lemma UpdateWithStatusName(tasks: seq<TaskItem>, taskId: int, parse: string -> Option<int>, v: int)
    requires ParsesStatusNames(parse) && IsNamedStatus(v)
    requires exists k :: 0 <= k < |tasks| && tasks[k].id == taskId
    ensures var r := UpdateStatus(tasks, taskId, StatusName(v), parse);
      && r.Ok?
      && var i := FindIndex(tasks, TaskId, taskId);
         0 <= i < |tasks| && r.value[i] == tasks[i].(status := v)
  {
    ParseStatusNameRoundTrip(parse, v);
    var k :| 0 <= k < |tasks| && tasks[k].id == taskId;
    assert TaskId(tasks[k]) == taskId;
  }

  /** `tasks2` is `tasks` with some statuses changed and nothing else. */
  ghost predicate SameButStatus(tasks: seq<TaskItem>, tasks2: seq<TaskItem>)
  {
    |tasks2| == |tasks| && forall k :: 0 <= k < |tasks| ==> tasks2[k] == tasks[k].(status := tasks2[k].status)
  }

  /** The weekly filter does not look at the status, so changing statuses keeps the number of rows
      it selects. */
  lemma {:induction false} StatusChangeKeepsRowCount(tasks: seq<TaskItem>, tasks2: seq<TaskItem>, users: seq<User>,
                                                     companyId: int, week: int, year: int)
    requires SameButStatus(tasks, tasks2)
    ensures |Filter(JoinUsers(tasks2, users), InCompanyWeek(companyId, week, year))|
         == |Filter(JoinUsers(tasks, users), InCompanyWeek(companyId, week, year))|
    decreases |tasks|
  {
    if tasks != [] {
      var f := InCompanyWeek(companyId, week, year);
      assert SameButStatus(tasks[1..], tasks2[1..]) by {
        forall k | 0 <= k < |tasks| - 1 ensures tasks2[1..][k] == tasks[1..][k].(status := tasks2[1..][k].status) {
          assert tasks2[1..][k] == tasks2[k + 1];
        }
      }
      StatusChangeKeepsRowCount(tasks[1..], tasks2[1..], users, companyId, week, year);
      var rest, rest2 := JoinUsers(tasks[1..], users), JoinUsers(tasks2[1..], users);
      assert tasks2[0].userId == tasks[0].userId;
      match UserById(users, tasks[0].userId)
      case None =>
      case Some(u) =>
        var row, row2 := TaskRow(tasks[0], u), TaskRow(tasks2[0], u);
        assert f(row) == f(row2);
        FilterAppend([row], rest, f);
        FilterAppend([row2], rest2, f);
        assert Filter([row], f) == (if f(row) then [row] else []) by { assert [row][1..] == []; }
        assert Filter([row2], f) == (if f(row2) then [row2] else []) by { assert [row2][1..] == []; }
    }
  }

  /** A status update leaves the weekly totals of every company and date as they were. */
  lemma UpdateKeepsWeeklyTotal(tasks: seq<TaskItem>, users: seq<User>, taskId: int, statusText: string,
                               parse: string -> Option<int>, companyId: int, date: Day)
    requires UpdateStatus(tasks, taskId, statusText, parse).Ok?
    ensures TaskStatistics(UpdateStatus(tasks, taskId, statusText, parse).value, users, companyId, date).total
         == TaskStatistics(tasks, users, companyId, date).total
  {
    var tasks2 := UpdateStatus(tasks, taskId, statusText, parse).value;
    var monday := MondayOf(date);
    StatusChangeKeepsRowCount(tasks, tasks2, users, companyId, WeekOfYear(monday), Year(monday));
  }
}
