/** The list helpers of the dashboard page, on the task rows the weekly listing sends: the
    day/user/team filter, the user and team pickers, and the status label and colour. */
module Dashboard {

  import opened Seqs
  import opened Calendar
  import opened Models
  import Queries

  /** The `user` object of a listed task. */
  datatype UserView = UserView(id: int, name: string, email: string, teamName: string)

  /** A listed task as the page receives it. Dates are whole days; the page compares them as
      `yyyy-MM-dd` strings, which name one day each. */
  datatype TaskView = TaskView(
    id: int,
    title: string,
    description: string,
    status: string,
    assignedDate: Day,
    dueDate: Option<Day>,
    difficultyLevel: int,
    user: UserView)

  /** The projection of one row of `GetWeeklyTasks`. */
  function ToView(types: seq<TaskType>, row: Queries.TaskRow): (v: TaskView)
    ensures v.id == row.task.id && v.assignedDate == row.task.assignedDate && v.dueDate == row.task.dueDate
    ensures v.user.id == row.user.id && v.user.teamName == row.user.teamName
    ensures IsNamedStatus(row.task.status) <==> v.status in {"NotStarted", "InProgress", "Completed"}
    ensures v.difficultyLevel == Queries.Difficulty(types, row.task.taskTypeId)
  {
    TaskView(row.task.id, row.task.title, row.task.description, StatusName(row.task.status),
             row.task.assignedDate, row.task.dueDate, Queries.Difficulty(types, row.task.taskTypeId),
             UserView(row.user.id, row.user.firstName + " " + row.user.lastName, row.user.email, row.user.teamName))
  }

  /** The value of a filter that selects everything. */
  const All := "all"

  /** The page's Monday: today minus `getDay()` plus one, with `getDay()` 0 on Sunday. */
  function PageMonday(today: Day): (m: Day)
    ensures DayOfWeek(m) == Monday
    ensures today + 1 < m + 7 && m <= today + 1
  {
    today + 1 - DayOfWeek(today)
  }

  /** On Monday to Saturday the page's Monday is the server's; on a Sunday it is the next day,
      one week after the Monday the server lists. */
  lemma PageMondayAgreesExceptSunday(today: Day)
    ensures DayOfWeek(today) != Sunday ==> PageMonday(today) == MondayOf(today)
    ensures DayOfWeek(today) == Sunday ==> PageMonday(today) == today + 1 == MondayOf(today) + 7
  {
    var m := PageMonday(today);
    if DayOfWeek(today) == Sunday {
      SundayGoesBackSix(today);
    } else {
      MultipleOfSevenBelow(today, m);
      MultipleOfSevenBelow(today, MondayOf(today));
    }
  }

  /** So on a Sunday, a day filter never selects a task of the listed week. */
  lemma SundayDayFilterMissesListedWeek(today: Day, i: nat)
    requires DayOfWeek(today) == Sunday && i < 6
    ensures PageMonday(today) + i >= MondayOf(today) + 7
  {
    PageMondayAgreesExceptSunday(today);
  }

  /** `dayNames.indexOf(filterDay)`. */
  function DayIndex(filterDay: string): (i: int)
    ensures -1 <= i < 6
    ensures i == -1 <==> filterDay !in DayNames
    ensures 0 <= i ==> DayNames[i] == filterDay
  {
    FindIndex(DayNames, Id, filterDay)
  }

  /** Every task the filters keep: the day filter applies when its value is one of the six day
      names, the user filter compares the printed user id, the team filter the team name. */
  predicate Shown(t: TaskView, filterDay: string, filterUser: string, filterTeam: string, today: Day)
  {
    && (forall i :: 0 <= i < 6 && DayNames[i] == filterDay ==> t.assignedDate == PageMonday(today) + i)
    && (filterUser == All || DecimalString(t.user.id) == filterUser)
    && (filterTeam == All || t.user.teamName == filterTeam)
  }

  function OnDate(date: int): TaskView -> bool
  {
    (t: TaskView) => t.assignedDate == date
  }

  function ForUser(filterUser: string): TaskView -> bool
  {
    (t: TaskView) => DecimalString(t.user.id) == filterUser
  }

  function ForTeam(filterTeam: string): TaskView -> bool
  {
    (t: TaskView) => t.user.teamName == filterTeam
  }

  /** `getFilteredTasks`: the day, user and team filters in turn. */
  function FilteredTasks(tasks: seq<TaskView>, filterDay: string, filterUser: string, filterTeam: string, today: Day)
    : (r: seq<TaskView>)
    ensures forall t :: t in r <==> t in tasks && Shown(t, filterDay, filterUser, filterTeam, today)
    ensures filterDay !in DayNames && filterUser == All && filterTeam == All ==> r == tasks
  {
    var byDay :=
      if filterDay != All && DayIndex(filterDay) != -1 then Filter(tasks, OnDate(PageMonday(today) + DayIndex(filterDay)))
      else tasks;
    var byUser := if filterUser != All then Filter(byDay, ForUser(filterUser)) else byDay;
    var r := if filterTeam != All then Filter(byUser, ForTeam(filterTeam)) else byUser;
    assert All !in DayNames;
    ShownDay(filterDay, today);
    r
  }

  function ShownBy(filterDay: string, filterUser: string, filterTeam: string, today: Day): TaskView -> bool
  {
    (t: TaskView) => Shown(t, filterDay, filterUser, filterTeam, today)
  }

  function DayPart(filterDay: string, today: Day): TaskView -> bool
  {
    (t: TaskView) => forall i :: 0 <= i < 6 && DayNames[i] == filterDay ==> t.assignedDate == PageMonday(today) + i
  }

  function UserPart(filterUser: string): TaskView -> bool
  {
    (t: TaskView) => filterUser == All || DecimalString(t.user.id) == filterUser
  }

  function TeamPart(filterTeam: string): TaskView -> bool
  {
    (t: TaskView) => filterTeam == All || t.user.teamName == filterTeam
  }

  function DayUserPart(filterDay: string, filterUser: string, today: Day): TaskView -> bool
  {
    (t: TaskView) => DayPart(filterDay, today)(t) && UserPart(filterUser)(t)
  }

  /** The three filters in turn are one filter by `Shown`: every task that passes is kept, each
      copy of a repeated task included, in the order of the input. */
  lemma FilteredTasksIsFilter(tasks: seq<TaskView>, filterDay: string, filterUser: string, filterTeam: string, today: Day)
    ensures FilteredTasks(tasks, filterDay, filterUser, filterTeam, today) == Filter(tasks, ShownBy(filterDay, filterUser, filterTeam, today))
  {
    var byDay :=
      if filterDay != All && DayIndex(filterDay) != -1 then Filter(tasks, OnDate(PageMonday(today) + DayIndex(filterDay)))
      else tasks;
    DayFilterIsDayPart(tasks, filterDay, today);
    var byUser := if filterUser != All then Filter(byDay, ForUser(filterUser)) else byDay;
    assert byUser == Filter(byDay, UserPart(filterUser)) by {
      if filterUser != All {
        FilterSame(byDay, ForUser(filterUser), UserPart(filterUser));
      } else {
        FilterAll(byDay, UserPart(filterUser));
      }
    }
    var r := if filterTeam != All then Filter(byUser, ForTeam(filterTeam)) else byUser;
    assert r == Filter(byUser, TeamPart(filterTeam)) by {
      if filterTeam != All {
        FilterSame(byUser, ForTeam(filterTeam), TeamPart(filterTeam));
      } else {
        FilterAll(byUser, TeamPart(filterTeam));
      }
    }
    FilterFilter(tasks, DayPart(filterDay, today), UserPart(filterUser), DayUserPart(filterDay, filterUser, today));
    FilterFilter(tasks, DayUserPart(filterDay, filterUser, today), TeamPart(filterTeam), ShownBy(filterDay, filterUser, filterTeam, today));
  }

  /** The day filter, applied only to a day name, keeps what the day part of `Shown` accepts. */
  lemma DayFilterIsDayPart(tasks: seq<TaskView>, filterDay: string, today: Day)
    ensures (if filterDay != All && DayIndex(filterDay) != -1 then Filter(tasks, OnDate(PageMonday(today) + DayIndex(filterDay)))
             else tasks) == Filter(tasks, DayPart(filterDay, today))
  {
    assert All !in DayNames;
    ShownDay(filterDay, today);
    if filterDay != All && DayIndex(filterDay) != -1 {
      FilterSame(tasks, OnDate(PageMonday(today) + DayIndex(filterDay)), DayPart(filterDay, today));
    } else {
      FilterAll(tasks, DayPart(filterDay, today));
    }
  }

  /** The day part of `Shown` is the day filter. */
  lemma ShownDay(filterDay: string, today: Day)
    ensures forall t: TaskView ::
      ((forall i :: 0 <= i < 6 && DayNames[i] == filterDay ==> t.assignedDate == PageMonday(today) + i)
       <==> (filterDay !in DayNames || t.assignedDate == PageMonday(today) + DayIndex(filterDay)))
  {
    forall i, j | 0 <= i < j < 6 ensures DayNames[i] != DayNames[j] {
      assert DayNames[0][0] == 'P' && DayNames[1][0] == 'S' && DayNames[2][0] == 'Ç';
      assert DayNames[3][0] == 'P' && DayNames[4][0] == 'C' && DayNames[5][0] == 'C';
      assert |DayNames[0]| == 9 && |DayNames[3]| == 8 && |DayNames[4]| == 4 && |DayNames[5]| == 9;
    }
  }

  /** The filtered list keeps the order of the tasks. */
  lemma FilteredTasksIsSubseq(tasks: seq<TaskView>, filterDay: string, filterUser: string, filterTeam: string, today: Day)
    ensures IsSubseq(FilteredTasks(tasks, filterDay, filterUser, filterTeam, today), tasks)
  {
    var byDay :=
      if filterDay != All && DayIndex(filterDay) != -1 then Filter(tasks, OnDate(PageMonday(today) + DayIndex(filterDay)))
      else tasks;
    var byUser := if filterUser != All then Filter(byDay, ForUser(filterUser)) else byDay;
    var r := if filterTeam != All then Filter(byUser, ForTeam(filterTeam)) else byUser;
    SubseqReflexive(tasks);
    SubseqReflexive(byDay);
    SubseqReflexive(byUser);
    FilterIsSubseq(tasks, OnDate(PageMonday(today) + DayIndex(filterDay)));
    FilterIsSubseq(byDay, ForUser(filterUser));
    FilterIsSubseq(byUser, ForTeam(filterTeam));
    SubseqTransitive(byUser, byDay, tasks);
    SubseqTransitive(r, byUser, tasks);
  }

  function UserViewId(u: UserView): int { u.id }

  function Users(tasks: seq<TaskView>): (users: seq<UserView>)
    ensures |users| == |tasks| && forall i :: 0 <= i < |tasks| ==> users[i] == tasks[i].user
  {
    seq(|tasks|, i requires 0 <= i < |tasks| => tasks[i].user)
  }

  /** `getUniqueUsers`: one record per user id, the first one met, in order of first occurrence. */
  function UniqueUsers(tasks: seq<TaskView>): (r: seq<UserView>)
    ensures IsSubseq(r, Users(tasks))
    ensures DistinctBy(r, UserViewId)
    ensures forall i :: 0 <= i < |tasks| ==> exists v :: v in r && v.id == tasks[i].user.id
    ensures forall v :: v in r ==> v == Users(tasks)[FindIndex(Users(tasks), UserViewId, v.id)]
    ensures forall i, j :: 0 <= i < j < |r| ==>
      FindIndex(Users(tasks), UserViewId, r[i].id) < FindIndex(Users(tasks), UserViewId, r[j].id)
  {
    var users := Users(tasks);
    var r := FirstOccurrences(users, UserViewId);
    FirstOccurrencesDistinct(users, UserViewId);
    forall i | 0 <= i < |tasks| ensures exists v :: v in r && v.id == tasks[i].user.id {
      var v := users[FindIndex(users, UserViewId, UserViewId(users[i]))];
      assert v in r && v.id == users[i].id;
    }
    r
  }

  function TeamNames(tasks: seq<TaskView>): (names: seq<string>)
    ensures |names| == |tasks| && forall i :: 0 <= i < |tasks| ==> names[i] == tasks[i].user.teamName
  {
    seq(|tasks|, i requires 0 <= i < |tasks| => tasks[i].user.teamName)
  }

  /** `getUniqueTeams`: the team names through a `Set`, so each once, in order of first occurrence. */
  function UniqueTeams(tasks: seq<TaskView>): (r: seq<string>)
    ensures forall n :: n in r <==> exists i :: 0 <= i < |tasks| && tasks[i].user.teamName == n
    ensures forall i, j :: 0 <= i < j < |r| ==> r[i] != r[j]
    ensures IsSubseq(r, TeamNames(tasks))
    ensures forall i, j :: 0 <= i < j < |r| ==>
      FindIndex(TeamNames(tasks), Id, r[i]) < FindIndex(TeamNames(tasks), Id, r[j])
  {
    var names := TeamNames(tasks);
    DistinctIsFirstOccurrences(names);
    Distinct(names)
  }

  /** `getStatusText`: the Turkish label of a status name; any other string is shown as is. */
  function StatusText(status: string): string
  {
    match status
    case "Completed" => "Tamamlandı"
    case "InProgress" => "Devam Ediyor"
    case "NotStarted" => "Başlamadı"
    case _ => status
  }

  /** `getStatusColor`: green, yellow and red badges for the three names, grey otherwise. */
  function StatusColor(status: string): string
  {
    match status
    case "Completed" => "bg-green-100 text-green-800"
    case "InProgress" => "bg-yellow-100 text-yellow-800"
    case "NotStarted" => "bg-red-100 text-red-800"
    case _ => "bg-gray-100 text-gray-800"
  }

  const Grey := "bg-gray-100 text-gray-800"

  /** On the status the listing sends, a named status gets its own label, different from the name,
      and the grey badge marks exactly the statuses without a name, which show their number. */
  lemma StatusLabelOfListedStatus(v: int)
    ensures IsNamedStatus(v) ==> StatusText(StatusName(v)) != StatusName(v)
    ensures !IsNamedStatus(v) ==> StatusText(StatusName(v)) == DecimalString(v)
    ensures StatusColor(StatusName(v)) == Grey <==> !IsNamedStatus(v)
  {
    if !IsNamedStatus(v) {
      var s := DecimalString(v);
      assert s != "Completed" && s != "InProgress" && s != "NotStarted" by {
        assert "Completed"[0] == 'C' && "InProgress"[0] == 'I' && "NotStarted"[0] == 'N';
      }
    }
  }

  /** Different stored statuses get different labels. */
  lemma StatusLabelsDistinguishStatuses(v1: int, v2: int)
    requires v1 != v2
    ensures StatusText(StatusName(v1)) != StatusText(StatusName(v2))
  {
    StatusLabelOfListedStatus(v1);
    StatusLabelOfListedStatus(v2);
    var s1, s2 := DecimalString(v1), DecimalString(v2);
    if !IsNamedStatus(v1) && !IsNamedStatus(v2) {
      if s1 == s2 { DecimalStringInjective(v1, v2); }
    } else if !IsNamedStatus(v1) {
      assert s1[0] == '-' || '0' <= s1[0] <= '9';
      assert StatusText(StatusName(v2)) in {"Tamamlandı", "Devam Ediyor", "Başlamadı"};
    } else if !IsNamedStatus(v2) {
      assert s2[0] == '-' || '0' <= s2[0] <= '9';
      assert StatusText(StatusName(v1)) in {"Tamamlandı", "Devam Ediyor", "Başlamadı"};
    }
  }
}
