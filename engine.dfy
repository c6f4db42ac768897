/** The weekly task-assignment engine (`TaskService.GenerateWeeklyTasks`): the four checks that
    precede any write, and the cyclic Latin-square rule that gives the task of day `d`, slot `i`
    (task types in difficulty order) to team member `(i + d) % 6`. */
module Engine {

  import opened Seqs
  import opened Ordering
  import opened Calendar
  import opened Models

  datatype GenError =
    | NoActiveUsers
    | TeamSizeInvalid(team: string, count: nat)
    | WeekAlreadyGenerated(year: int, week: int)
    | TaskTypeCountInvalid(count: nat)

  /** A group of active users of one company sharing a team name. */
  datatype Team = Team(name: string, members: seq<User>)

  /** Members per team, task types per day, and working days per week (Monday to Saturday). */
  const TeamSize := 6

  function ActiveIn(companyId: int): User -> bool
  {
    (u: User) => u.companyId == companyId && u.isActive
  }

  function InTeam(name: string): User -> bool
  {
    (u: User) => u.teamName == name
  }

  function ActiveInTeam(companyId: int, name: string): User -> bool
  {
    (u: User) => u.companyId == companyId && u.isActive && u.teamName == name
  }

  /** The number of active users of a company in a team. */
  function TeamCount(users: seq<User>, companyId: int, name: string): nat
  {
    |Filter(users, ActiveInTeam(companyId, name))|
  }

  function TeamThenId(u: User): SortKey { [Text(u.teamName), Num(u.id)] }

  function ByDifficulty(t: TaskType): SortKey { [Num(t.difficultyLevel)] }

  /** The company's active users ordered by team name, then id. */
  function CompanyUsers(users: seq<User>, companyId: int): (us: seq<User>)
    ensures SortedBy(us, TeamThenId)
    ensures multiset(us) == multiset(Filter(users, ActiveIn(companyId)))
  {
    SortBy(Filter(users, ActiveIn(companyId)), TeamThenId)
  }

  function TeamNames(us: seq<User>): (names: seq<string>)
    ensures |names| == |us|
  {
    seq(|us|, i requires 0 <= i < |us| => us[i].teamName)
  }

  /** LINQ `GroupBy` on the team name: one group per distinct name, in order of first occurrence,
      each keeping the order of `us`. */
  function GroupByTeam(us: seq<User>): (teams: seq<Team>)
    ensures forall g, h :: 0 <= g < h < |teams| ==> teams[g].name != teams[h].name
    ensures forall g :: 0 <= g < |teams| ==> |teams[g].members| > 0 && IsSubseq(teams[g].members, us)
    ensures forall g, u :: 0 <= g < |teams| && u in teams[g].members ==> u in us && u.teamName == teams[g].name
    ensures forall u :: u in us ==> exists g :: 0 <= g < |teams| && teams[g].name == u.teamName && u in teams[g].members
    ensures forall g, h :: 0 <= g < h < |teams| ==>
      FindIndex(TeamNames(us), Id, teams[g].name) < FindIndex(TeamNames(us), Id, teams[h].name)
  {
    var names := Distinct(TeamNames(us));
    var teams := seq(|names|, g requires 0 <= g < |names| => Team(names[g], Filter(us, InTeam(names[g]))));
    GroupsPartition(us, names, teams);
    DistinctIsFirstOccurrences(TeamNames(us));
    teams
  }

  lemma GroupsPartition(us: seq<User>, names: seq<string>, teams: seq<Team>)
    requires names == Distinct(TeamNames(us)) && |teams| == |names|
    requires forall g :: 0 <= g < |teams| ==> teams[g] == Team(names[g], Filter(us, InTeam(names[g])))
    ensures forall g :: 0 <= g < |teams| ==> |teams[g].members| > 0 && IsSubseq(teams[g].members, us)
    ensures forall g, u :: 0 <= g < |teams| && u in teams[g].members ==> u in us && u.teamName == teams[g].name
    ensures forall u :: u in us ==> exists g :: 0 <= g < |teams| && teams[g].name == u.teamName && u in teams[g].members
  {
    forall g | 0 <= g < |teams|
      ensures |teams[g].members| > 0 && IsSubseq(teams[g].members, us)
    {
      FilterIsSubseq(us, InTeam(names[g]));
      assert names[g] in TeamNames(us);
      var i :| 0 <= i < |us| && TeamNames(us)[i] == names[g];
      assert InTeam(names[g])(us[i]);
      assert us[i] in teams[g].members;
    }
    forall g, u | 0 <= g < |teams| && u in teams[g].members
      ensures u in us && u.teamName == teams[g].name
    {
      assert InTeam(names[g])(u);
    }
    forall u | u in us
      ensures exists g :: 0 <= g < |teams| && teams[g].name == u.teamName && u in teams[g].members
    {
      var i :| 0 <= i < |us| && us[i] == u;
      assert TeamNames(us)[i] == u.teamName;
      assert u.teamName in names;
      var g :| 0 <= g < |names| && names[g] == u.teamName;
      assert InTeam(names[g])(u);
      assert u in teams[g].members;
    }
  }

  /** The teams of a company, in team-name order (`TeamsOrderedByName`), members in id order
      (`TeamMembersOrderedById`). */
  function Teams(users: seq<User>, companyId: int): seq<Team>
  {
    GroupByTeam(CompanyUsers(users, companyId))
  }

  /** The teams come in strictly increasing ordinal order of their names, so the week's tasks are
      appended, and numbered, team by team in that order. */
  lemma TeamsOrderedByName(users: seq<User>, companyId: int)
    ensures var teams := Teams(users, companyId);
      forall g, h :: 0 <= g < h < |teams| ==> StrLt(teams[g].name, teams[h].name)
  {
    var us := CompanyUsers(users, companyId);
    var teams := Teams(users, companyId);
    forall g, h | 0 <= g < h < |teams| ensures StrLt(teams[g].name, teams[h].name) {
      var a := FirstMemberPosition(us, teams, g);
      var b := FirstMemberPosition(us, teams, h);
      assert KeyLe(TeamThenId(us[a]), TeamThenId(us[b]));
      assert TeamThenId(us[a])[0] == Text(teams[g].name) && TeamThenId(us[b])[0] == Text(teams[h].name);
    }
  }

  /** The position in `us` where the name of group `g` first occurs. */
  lemma FirstMemberPosition(us: seq<User>, teams: seq<Team>, g: nat) returns (a: nat)
    requires teams == GroupByTeam(us) && g < |teams|
    ensures a == FindIndex(TeamNames(us), Id, teams[g].name) && a < |us| && us[a].teamName == teams[g].name
  {
    var u := teams[g].members[0];
    assert u in teams[g].members;
    var i :| 0 <= i < |us| && us[i] == u;
    assert TeamNames(us)[i] == teams[g].name;
    a := FindIndex(TeamNames(us), Id, teams[g].name);
  }

  predicate TeamsOfSix(teams: seq<Team>)
  {
    forall g :: 0 <= g < |teams| ==> |teams[g].members| == TeamSize
  }

  /** The first team from position `g` on whose size is not six. */
  function FirstBadTeamFrom(teams: seq<Team>, g: nat): (r: Option<Team>)
    requires g <= |teams|
    ensures r.None? <==> forall h :: g <= h < |teams| ==> |teams[h].members| == TeamSize
    ensures r.Some? ==> |r.value.members| != TeamSize && r.value in teams[g..]
    decreases |teams| - g
  {
    if g == |teams| then None
    else if |teams[g].members| != TeamSize then Some(teams[g])
    else FirstBadTeamFrom(teams, g + 1)
  }

  /** Some task already carries the week key. The check does not look at the company. */
  predicate WeekExists(tasks: seq<TaskItem>, week: int, year: int)
  {
    exists k :: 0 <= k < |tasks| && tasks[k].weekNumber == week && tasks[k].year == year
  }

  /** The task of day `day` (0 = Monday) and slot `slot` (the task type of that difficulty rank)
      for a team of six ordered by id. */
  function PlannedTask(team: seq<User>, types: seq<TaskType>, monday: Day, week: int, year: int, day: nat, slot: nat): TaskItem
    requires |team| == TeamSize && |types| == TeamSize && day < 6 && slot < 6
  {
    var user := team[(slot + day) % TeamSize];
    var taskType := types[slot];
    var date := monday + day;
    TaskItem(0, TaskTitle(taskType.name, day), taskType.description, user.id, taskType.id,
             NotStarted, date, Some(date), week, year)
  }

  /** Position `k` of the plan: team `k / 36`, day `(k % 36) / 6`, slot `k % 6`. */
  function PlanEntry(teams: seq<Team>, types: seq<TaskType>, monday: Day, week: int, year: int, k: nat): TaskItem
    requires TeamsOfSix(teams) && |types| == TeamSize && k < 36 * |teams|
  {
    PlannedTask(teams[k / 36].members, types, monday, week, year, (k % 36) / 6, k % 6)
  }

  /** All tasks of a week: per team (in order), per day, per slot. Ids are assigned on insert. */
  function WeekPlan(teams: seq<Team>, types: seq<TaskType>, monday: Day, week: int, year: int): (plan: seq<TaskItem>)
    requires TeamsOfSix(teams) && |types| == TeamSize
    ensures |plan| == 36 * |teams|
  {
    seq(36 * |teams|, k requires 0 <= k < 36 * |teams| => PlanEntry(teams, types, monday, week, year, k))
  }

  /** The task types in difficulty order: slot `i` of every day is the `i`-th easiest type. */
  function TypesByDifficulty(types: seq<TaskType>): (ordered: seq<TaskType>)
    ensures multiset(ordered) == multiset(types) && |ordered| == |types|
    ensures forall i, j :: 0 <= i < j < |ordered| ==> ordered[i].difficultyLevel <= ordered[j].difficultyLevel
  {
    var ordered := SortBy(types, ByDifficulty);
    assert forall i, j :: 0 <= i < j < |ordered| ==> KeyLe(ByDifficulty(ordered[i]), ByDifficulty(ordered[j]));
    ordered
  }

  /** What the generator returns: the week's tasks, or the first failing check. `week` and `year`
      are the week key of `monday`, which the service computes (`GenerateWeek`); every property
      below holds for any key. */
  function Generate(users: seq<User>, existing: seq<TaskItem>, types: seq<TaskType>, companyId: int, monday: Day,
                    week: int, year: int)
    : Result<seq<TaskItem>, GenError>
  {
    var active := CompanyUsers(users, companyId);
    if |active| == 0 then Err(NoActiveUsers)
    else
      var teams := GroupByTeam(active);
      match FirstBadTeamFrom(teams, 0)
      case Some(t) => Err(TeamSizeInvalid(t.name, |t.members|))
      case None => GenerateForTeams(teams, existing, types, monday, week, year)
  }

  /** The rest of the generator once the teams are known to be full: the week check, the task-type
      count, then the plan. */
  function GenerateForTeams(teams: seq<Team>, existing: seq<TaskItem>, types: seq<TaskType>, monday: Day,
                            week: int, year: int)
    : (r: Result<seq<TaskItem>, GenError>)
    requires TeamsOfSix(teams)
    ensures r.Err? ==> r.error.WeekAlreadyGenerated? || r.error.TaskTypeCountInvalid?
  {
    if WeekExists(existing, week, year) then Err(WeekAlreadyGenerated(year, week))
    else
      var ordered := TypesByDifficulty(types);
      if |ordered| != TeamSize then Err(TaskTypeCountInvalid(|ordered|))
      else Ok(WeekPlan(teams, ordered, monday, week, year))
  }

  /** The validation loop over the teams. */
  method CheckTeamSizes(teams: seq<Team>) returns (bad: Option<Team>)
    ensures bad == FirstBadTeamFrom(teams, 0)
  {
    for g := 0 to |teams|
      invariant FirstBadTeamFrom(teams, 0) == FirstBadTeamFrom(teams, g)
    {
      if |teams[g].members| != TeamSize {
        return Some(teams[g]);
      }
    }
    return None;
  }

  /** The service's steps: the four checks in order, each returning its error, then the
      assignment loops. The insert is the caller's. */
  method GenerateWeek(users: seq<User>, existing: seq<TaskItem>, types: seq<TaskType>, companyId: int, monday: Day)
    returns (r: Result<seq<TaskItem>, GenError>)
    ensures r == Generate(users, existing, types, companyId, monday, WeekOfYear(monday), Year(monday))
  {
    var active := CompanyUsers(users, companyId);
    if |active| == 0 {
      return Err(NoActiveUsers);
    }
    var teams := GroupByTeam(active);
    var bad := CheckTeamSizes(teams);
    if bad.Some? {
      return Err(TeamSizeInvalid(bad.value.name, |bad.value.members|));
    }
    var week := WeekOfYear(monday);
    var year := Year(monday);
    if WeekExists(existing, week, year) {
      return Err(WeekAlreadyGenerated(year, week));
    }
    var ordered := TypesByDifficulty(types);
    if |ordered| != TeamSize {
      return Err(TaskTypeCountInvalid(|ordered|));
    }
    var plan := BuildWeekTasks(teams, ordered, monday, week, year);
    return Ok(plan);
  }

  lemma PlanIndex(g: nat, day: nat, slot: nat)
    requires day < 6 && slot < 6
    ensures var k := 36 * g + 6 * day + slot; k / 36 == g && (k % 36) / 6 == day && k % 6 == slot
  {
    DivOf(g, 6 * day + slot, 36);
    DivOf(day, slot, 6);
    DivOf(6 * g + day, slot, 6);
  }

  /** The assignment loops: per team, per day, per slot, append the task. */
  method BuildWeekTasks(teams: seq<Team>, types: seq<TaskType>, monday: Day, week: int, year: int)
    returns (tasks: seq<TaskItem>)
    requires TeamsOfSix(teams) && |types| == TeamSize
    ensures tasks == WeekPlan(teams, types, monday, week, year)
  {
    tasks := [];
    for g := 0 to |teams|
      invariant |tasks| == 36 * g
      invariant forall k :: 0 <= k < |tasks| ==> tasks[k] == PlanEntry(teams, types, monday, week, year, k)
    {
      var teamUsers := teams[g].members;
      for day := 0 to 6
        invariant |tasks| == 36 * g + 6 * day
        invariant forall k :: 0 <= k < |tasks| ==> tasks[k] == PlanEntry(teams, types, monday, week, year, k)
      {
        var currentDate := monday + day;
        for taskIndex := 0 to 6
          invariant |tasks| == 36 * g + 6 * day + taskIndex
          invariant forall k :: 0 <= k < |tasks| ==> tasks[k] == PlanEntry(teams, types, monday, week, year, k)
        {
          var userIndex := (taskIndex + day) % 6;
          var user := teamUsers[userIndex];
          var taskType := types[taskIndex];
          var task := TaskItem(0, TaskTitle(taskType.name, day), taskType.description, user.id, taskType.id,
                               NotStarted, currentDate, Some(currentDate), week, year);
          PlanIndex(g, day, taskIndex);
          tasks := tasks + [task];
        }
      }
    }
  }

  /** On each day, the team's six tasks go to six different members: every member gets exactly one. */
  lemma DayAssignsEachMemberOnce(team: seq<User>, types: seq<TaskType>, monday: Day, week: int, year: int, day: nat, m: nat)
    requires |team| == TeamSize && |types| == TeamSize && day < 6 && m < 6
    requires DistinctBy(team, UserId)
    ensures exists slot :: 0 <= slot < 6 && PlannedTask(team, types, monday, week, year, day, slot).userId == team[m].id
    ensures forall s1, s2 ::
      && 0 <= s1 < 6 && 0 <= s2 < 6
      && PlannedTask(team, types, monday, week, year, day, s1).userId == team[m].id
      && PlannedTask(team, types, monday, week, year, day, s2).userId == team[m].id
      ==> s1 == s2
  {
    var slot := (m + 6 - day) % 6;
    assert (slot + day) % 6 == m;
    assert PlannedTask(team, types, monday, week, year, day, slot).userId == team[m].id;
    forall s | 0 <= s < 6 && PlannedTask(team, types, monday, week, year, day, s).userId == team[m].id
      ensures s == slot
    {
      var i := (s + day) % 6;
      assert UserId(team[i]) == UserId(team[m]);
      assert i == m;
    }
  }

  /** Over the six days, every member gets every task type exactly once. */
  lemma WeekGivesEachMemberEachTypeOnce(team: seq<User>, types: seq<TaskType>, monday: Day, week: int, year: int, m: nat, j: nat)
    requires |team| == TeamSize && |types| == TeamSize && m < 6 && j < 6
    requires DistinctBy(team, UserId) && DistinctBy(types, TypeId)
    ensures exists day, slot ::
      && 0 <= day < 6 && 0 <= slot < 6
      && PlannedTask(team, types, monday, week, year, day, slot).userId == team[m].id
      && PlannedTask(team, types, monday, week, year, day, slot).taskTypeId == types[j].id
    ensures forall d1, s1, d2, s2 ::
      && 0 <= d1 < 6 && 0 <= s1 < 6 && 0 <= d2 < 6 && 0 <= s2 < 6
      && PlannedTask(team, types, monday, week, year, d1, s1).userId == team[m].id
      && PlannedTask(team, types, monday, week, year, d1, s1).taskTypeId == types[j].id
      && PlannedTask(team, types, monday, week, year, d2, s2).userId == team[m].id
      && PlannedTask(team, types, monday, week, year, d2, s2).taskTypeId == types[j].id
      ==> d1 == d2 && s1 == s2
  {
    var day := (m + 6 - j) % 6;
    assert (j + day) % 6 == m;
    assert PlannedTask(team, types, monday, week, year, day, j).userId == team[m].id;
    forall d, s | 0 <= d < 6 && 0 <= s < 6
      && PlannedTask(team, types, monday, week, year, d, s).userId == team[m].id
      && PlannedTask(team, types, monday, week, year, d, s).taskTypeId == types[j].id
      ensures d == day && s == j
    {
      assert TypeId(types[s]) == TypeId(types[j]);
      assert s == j;
      var i := (s + d) % 6;
      assert UserId(team[i]) == UserId(team[m]);
      assert i == m;
    }
  }

  /** Ids are unique across all members of all teams. */
  ghost predicate MemberIdsDistinct(teams: seq<Team>)
  {
    forall g1, i1, g2, i2 ::
      && 0 <= g1 < |teams| && 0 <= i1 < |teams[g1].members|
      && 0 <= g2 < |teams| && 0 <= i2 < |teams[g2].members|
      && teams[g1].members[i1].id == teams[g2].members[i2].id
      ==> g1 == g2 && i1 == i2
  }

  /** The user has exactly one task dated `date`. */
  predicate OneTaskOnDate(plan: seq<TaskItem>, userId: int, date: int)
  {
    && (exists k :: 0 <= k < |plan| && plan[k].userId == userId && plan[k].assignedDate == date)
    && (forall k1, k2 ::
          && 0 <= k1 < |plan| && plan[k1].userId == userId && plan[k1].assignedDate == date
          && 0 <= k2 < |plan| && plan[k2].userId == userId && plan[k2].assignedDate == date
          ==> k1 == k2)
  }

  /** The user has exactly one task of the task type `typeId`. */
  predicate OneTaskOfType(plan: seq<TaskItem>, userId: int, typeId: int)
  {
    && (exists k :: 0 <= k < |plan| && plan[k].userId == userId && plan[k].taskTypeId == typeId)
    && (forall k1, k2 ::
          && 0 <= k1 < |plan| && plan[k1].userId == userId && plan[k1].taskTypeId == typeId
          && 0 <= k2 < |plan| && plan[k2].userId == userId && plan[k2].taskTypeId == typeId
          ==> k1 == k2)
  }

  /** The fields of plan entry `k` that the coverage proofs use: its team is `k / 36`, its day
      `(k % 36) / 6` and its slot `k % 6`. */
  lemma PlanFields(teams: seq<Team>, types: seq<TaskType>, monday: Day, week: int, year: int, k: nat)
    requires TeamsOfSix(teams) && |types| == TeamSize && k < 36 * |teams|
    ensures var t := WeekPlan(teams, types, monday, week, year)[k];
      var g, day, slot := k / 36, (k % 36) / 6, k % 6;
      && g < |teams| && day < 6 && k == 36 * g + 6 * day + slot
      && t.userId == teams[g].members[(slot + day) % 6].id
      && t.taskTypeId == types[slot].id
      && t.assignedDate == monday + day
  {
    var q, r := k / 36, k % 36;
    DivOf(6 * q + r / 6, r % 6, 6);
  }

  lemma PlanSlot(teams: seq<Team>, types: seq<TaskType>, monday: Day, week: int, year: int, k: nat)
    requires TeamsOfSix(teams) && |types| == TeamSize && k < 36 * |teams|
    ensures var t := WeekPlan(teams, types, monday, week, year)[k];
      && k / 36 < |teams| && (k % 36) / 6 < 6
      && t == PlannedTask(teams[k / 36].members, types, monday, week, year, (k % 36) / 6, k % 6)
  {
  }

  /** On day `day`, slot `slot` goes to member `m` exactly when `slot` is `(m + 6 - day) % 6`. */
  lemma SlotOfMember(slot: nat, day: nat, m: nat)
    requires slot < 6 && day < 6 && m < 6
    ensures (slot + day) % 6 == m <==> slot == (m + 6 - day) % 6
  {
    if slot + day < 6 {
      DivOf(0, slot + day, 6);
    } else {
      DivOf(1, slot + day - 6, 6);
    }
    if m < day {
      DivOf(0, m + 6 - day, 6);
    } else {
      DivOf(1, m - day, 6);
    }
  }

  /** Position `k` of the plan belongs to member `m` of team `g`. */
  lemma PlanEntryOfMember(teams: seq<Team>, types: seq<TaskType>, monday: Day, week: int, year: int, g: nat, m: nat, k: nat)
    requires TeamsOfSix(teams) && |types| == TeamSize && MemberIdsDistinct(teams)
    requires g < |teams| && m < TeamSize && k < 36 * |teams|
    requires WeekPlan(teams, types, monday, week, year)[k].userId == teams[g].members[m].id
    ensures k / 36 == g && (k % 6 + (k % 36) / 6) % 6 == m
  {
    PlanFields(teams, types, monday, week, year, k);
    var g1, d1, s1 := k / 36, (k % 36) / 6, k % 6;
    assert teams[g1].members[(s1 + d1) % 6].id == teams[g].members[m].id;
  }

  /** In the whole plan, each member of each team has exactly one task on each of the six days. */
  lemma PlanOneTaskPerMemberPerDay(teams: seq<Team>, types: seq<TaskType>, monday: Day, week: int, year: int, g: nat, m: nat, day: nat)
    requires TeamsOfSix(teams) && |types| == TeamSize && MemberIdsDistinct(teams)
    requires g < |teams| && m < TeamSize && day < 6
    ensures var plan := WeekPlan(teams, types, monday, week, year);
      var k0 := 36 * g + 6 * day + (m + 6 - day) % 6;
      && k0 < |plan|
      && plan[k0].userId == teams[g].members[m].id && plan[k0].assignedDate == monday + day
      && OneTaskOnDate(plan, teams[g].members[m].id, monday + day)
  {
    var plan := WeekPlan(teams, types, monday, week, year);
    var id := teams[g].members[m].id;
    var slot := (m + 6 - day) % 6;
    var k0 := 36 * g + 6 * day + slot;
    PlanIndex(g, day, slot);
    PlanFields(teams, types, monday, week, year, k0);
    SlotOfMember(slot, day, m);
    forall k | 0 <= k < |plan| && plan[k].userId == id && plan[k].assignedDate == monday + day
      ensures k == k0
    {
      PlanEntryOfMemberOnDay(teams, types, monday, week, year, g, m, day, k);
    }
  }

  /** Position `k` of the plan holds member `m` of team `g` on day `day`. */
  lemma PlanEntryOfMemberOnDay(teams: seq<Team>, types: seq<TaskType>, monday: Day, week: int, year: int,
                               g: nat, m: nat, day: nat, k: nat)
    requires TeamsOfSix(teams) && |types| == TeamSize && MemberIdsDistinct(teams)
    requires g < |teams| && m < TeamSize && day < 6 && k < 36 * |teams|
    requires WeekPlan(teams, types, monday, week, year)[k].userId == teams[g].members[m].id
    requires WeekPlan(teams, types, monday, week, year)[k].assignedDate == monday + day
    ensures k == 36 * g + 6 * day + (m + 6 - day) % 6
  {
    PlanFields(teams, types, monday, week, year, k);
    PlanEntryOfMember(teams, types, monday, week, year, g, m, k);
    SlotOfMember(k % 6, day, m);
  }

  /** Position `k` of the plan holds member `m` of team `g` and type `j`. */
  lemma PlanEntryOfMemberAndType(teams: seq<Team>, types: seq<TaskType>, monday: Day, week: int, year: int, g: nat, m: nat, j: nat, k: nat)
    requires TeamsOfSix(teams) && |types| == TeamSize && MemberIdsDistinct(teams) && DistinctBy(types, TypeId)
    requires g < |teams| && m < TeamSize && j < TeamSize && k < 36 * |teams|
    requires WeekPlan(teams, types, monday, week, year)[k].userId == teams[g].members[m].id
    requires WeekPlan(teams, types, monday, week, year)[k].taskTypeId == types[j].id
    ensures k == 36 * g + 6 * ((m + 6 - j) % 6) + j
  {
    PlanFields(teams, types, monday, week, year, k);
    PlanEntryOfMember(teams, types, monday, week, year, g, m, k);
    var d1, s1 := (k % 36) / 6, k % 6;
    assert TypeId(types[s1]) == TypeId(types[j]);
    assert s1 == j;
    SlotOfMember(d1, j, m);
  }

  /** In the whole plan, each member of each team gets each task type exactly once. */
  lemma PlanEachTypeOncePerMember(teams: seq<Team>, types: seq<TaskType>, monday: Day, week: int, year: int, g: nat, m: nat, j: nat)
    requires TeamsOfSix(teams) && |types| == TeamSize && MemberIdsDistinct(teams) && DistinctBy(types, TypeId)
    requires g < |teams| && m < TeamSize && j < TeamSize
    ensures var plan := WeekPlan(teams, types, monday, week, year);
      var k0 := 36 * g + 6 * ((m + 6 - j) % 6) + j;
      && k0 < |plan|
      && plan[k0].userId == teams[g].members[m].id && plan[k0].taskTypeId == types[j].id
      && OneTaskOfType(plan, teams[g].members[m].id, types[j].id)
  {
    var plan := WeekPlan(teams, types, monday, week, year);
    var id := teams[g].members[m].id;
    var day := (m + 6 - j) % 6;
    var k0 := 36 * g + 6 * day + j;
    PlanIndex(g, day, j);
    PlanFields(teams, types, monday, week, year, k0);
    SlotOfMember(day, j, m);
    forall k | 0 <= k < |plan| && plan[k].userId == id && plan[k].taskTypeId == types[j].id
      ensures k == k0
    {
      PlanEntryOfMemberAndType(teams, types, monday, week, year, g, m, j, k);
    }
  }

  /** There is an active user of the company. */
  predicate HasActiveUser(users: seq<User>, companyId: int)
  {
    exists i :: 0 <= i < |users| && ActiveIn(companyId)(users[i])
  }

  /** Every team of the company has exactly six active users. */
  predicate TeamsFull(users: seq<User>, companyId: int)
  {
    forall i :: 0 <= i < |users| && ActiveIn(companyId)(users[i]) ==>
      TeamCount(users, companyId, users[i].teamName) == TeamSize
  }

  lemma CompanyUsersAreActiveMembers(users: seq<User>, companyId: int)
    ensures forall u :: u in CompanyUsers(users, companyId) <==> u in users && ActiveIn(companyId)(u)
  {
    var f := Filter(users, ActiveIn(companyId));
    forall u ensures u in CompanyUsers(users, companyId) <==> u in f {
      assert u in multiset(CompanyUsers(users, companyId)) <==> u in multiset(f);
    }
  }

  lemma HasActiveUserIff(users: seq<User>, companyId: int)
    ensures |CompanyUsers(users, companyId)| > 0 <==> HasActiveUser(users, companyId)
  {
    CompanyUsersAreActiveMembers(users, companyId);
    if HasActiveUser(users, companyId) {
      var i :| 0 <= i < |users| && ActiveIn(companyId)(users[i]);
      assert users[i] in CompanyUsers(users, companyId);
    }
    if |CompanyUsers(users, companyId)| > 0 {
      var u := CompanyUsers(users, companyId)[0];
      assert u in users;
      var i :| 0 <= i < |users| && users[i] == u;
    }
  }

  /** A group's size is the number of active users of the company with that team name. */
  lemma TeamSizeIsTeamCount(users: seq<User>, companyId: int, g: nat)
    requires g < |Teams(users, companyId)|
    ensures |Teams(users, companyId)[g].members| == TeamCount(users, companyId, Teams(users, companyId)[g].name)
  {
    var active := CompanyUsers(users, companyId);
    var teams := GroupByTeam(active);
    var name := teams[g].name;
    var names := Distinct(TeamNames(active));
    assert teams[g].members == Filter(active, InTeam(names[g]));
    FilterCountPermutation(active, Filter(users, ActiveIn(companyId)), InTeam(name));
    FilterFilter(users, ActiveIn(companyId), InTeam(name), ActiveInTeam(companyId, name));
  }

  /** The team of an active user of the company, whose size is that team's active count. */
  lemma TeamOfUser(users: seq<User>, companyId: int, i: nat) returns (g: nat)
    requires i < |users| && ActiveIn(companyId)(users[i])
    ensures g < |Teams(users, companyId)| && Teams(users, companyId)[g].name == users[i].teamName
    ensures |Teams(users, companyId)[g].members| == TeamCount(users, companyId, users[i].teamName)
  {
    var m;
    g, m := ActiveUserPlace(users, companyId, users[i]);
    assert users[i] in Teams(users, companyId)[g].members;
    TeamSizeIsTeamCount(users, companyId, g);
  }

  /** An active user of the company in team `g`, whose size is that team's active count. */
  lemma UserOfTeam(users: seq<User>, companyId: int, g: nat) returns (i: nat)
    requires g < |Teams(users, companyId)|
    ensures i < |users| && ActiveIn(companyId)(users[i]) && users[i].teamName == Teams(users, companyId)[g].name
    ensures |Teams(users, companyId)[g].members| == TeamCount(users, companyId, Teams(users, companyId)[g].name)
  {
    var team := Teams(users, companyId)[g];
    var u := team.members[0];
    assert u in team.members;
    CompanyUsersAreActiveMembers(users, companyId);
    assert u in users;
    i :| 0 <= i < |users| && users[i] == u;
    TeamSizeIsTeamCount(users, companyId, g);
  }

  /** The per-team check passes exactly when every team of the company has six active users. */
  lemma TeamsOfSixIff(users: seq<User>, companyId: int)
    ensures TeamsOfSix(Teams(users, companyId)) <==> TeamsFull(users, companyId)
  {
    var teams := Teams(users, companyId);
    if TeamsOfSix(teams) {
      forall i | 0 <= i < |users| && ActiveIn(companyId)(users[i])
        ensures TeamCount(users, companyId, users[i].teamName) == TeamSize
      {
        var g := TeamOfUser(users, companyId, i);
      }
    }
    if TeamsFull(users, companyId) {
      forall g | 0 <= g < |teams| ensures |teams[g].members| == TeamSize {
        var i := UserOfTeam(users, companyId, g);
      }
    }
  }

  /** Generation fails with `NoActiveUsers` exactly when the company has no active user. */
  lemma GenerateNoActiveUsers(users: seq<User>, existing: seq<TaskItem>, types: seq<TaskType>, companyId: int, monday: Day, week: int, year: int)
    ensures Generate(users, existing, types, companyId, monday, week, year) == Err(NoActiveUsers) <==> !HasActiveUser(users, companyId)
  {
    HasActiveUserIff(users, companyId);
  }

  /** Generation fails on team size exactly when some team of the company does not have six active
      users; the error names such a team and its actual size. */
  lemma GenerateTeamSizeInvalid(users: seq<User>, existing: seq<TaskItem>, types: seq<TaskType>, companyId: int, monday: Day, week: int, year: int)
    ensures var r := Generate(users, existing, types, companyId, monday, week, year);
      r.Err? && r.error.TeamSizeInvalid? <==> HasActiveUser(users, companyId) && !TeamsFull(users, companyId)
    ensures var r := Generate(users, existing, types, companyId, monday, week, year);
      r.Err? && r.error.TeamSizeInvalid? ==>
        && r.error.count != TeamSize
        && r.error.count == TeamCount(users, companyId, r.error.team)
        && exists i :: 0 <= i < |users| && ActiveIn(companyId)(users[i]) && users[i].teamName == r.error.team
  {
    HasActiveUserIff(users, companyId);
    FirstBadTeamOfCompany(users, companyId);
  }

  /** The team the size check reports: there is one exactly when the teams are not all full, and it
      is a team of the company whose active count is not six. */
  lemma FirstBadTeamOfCompany(users: seq<User>, companyId: int)
    ensures var b := FirstBadTeamFrom(Teams(users, companyId), 0);
      && (b.Some? <==> !TeamsFull(users, companyId))
      && (b.Some? ==>
            && |b.value.members| == TeamCount(users, companyId, b.value.name)
            && exists i :: 0 <= i < |users| && ActiveIn(companyId)(users[i]) && users[i].teamName == b.value.name)
  {
    NoBadTeamIff(users, companyId);
    var b := FirstBadTeamFrom(Teams(users, companyId), 0);
    if b.Some? {
      var i := BadTeamOfCompany(users, companyId);
    }
  }

  /** The size check passes exactly when every team of the company is full. */
  lemma NoBadTeamIff(users: seq<User>, companyId: int)
    ensures FirstBadTeamFrom(Teams(users, companyId), 0).None? <==> TeamsFull(users, companyId)
  {
    TeamsOfSixIff(users, companyId);
  }

  lemma BadTeamOfCompany(users: seq<User>, companyId: int) returns (i: nat)
    requires FirstBadTeamFrom(Teams(users, companyId), 0).Some?
    ensures var t := FirstBadTeamFrom(Teams(users, companyId), 0).value;
      && |t.members| == TeamCount(users, companyId, t.name)
      && i < |users| && ActiveIn(companyId)(users[i]) && users[i].teamName == t.name
  {
    var teams := Teams(users, companyId);
    var t := FirstBadTeamFrom(teams, 0).value;
    assert t in teams;
    var g :| 0 <= g < |teams| && teams[g] == t;
    i := UserOfTeam(users, companyId, g);
  }

  /** Generation fails on the week check exactly when the earlier checks pass and some task, of any
      company, already carries the week number and year of `monday`. */
  lemma GenerateWeekAlreadyGenerated(users: seq<User>, existing: seq<TaskItem>, types: seq<TaskType>, companyId: int, monday: Day, week: int, year: int)
    ensures var r := Generate(users, existing, types, companyId, monday, week, year);
      r.Err? && r.error.WeekAlreadyGenerated? <==>
        && HasActiveUser(users, companyId) && TeamsFull(users, companyId)
        && WeekExists(existing, week, year)
    ensures var r := Generate(users, existing, types, companyId, monday, week, year);
      r.Err? && r.error.WeekAlreadyGenerated? ==> r.error == WeekAlreadyGenerated(year, week)
  {
    HasActiveUserIff(users, companyId);
    NoBadTeamIff(users, companyId);
  }

  /** Generation fails on the task-type count exactly when every earlier check passes and there are
      not six task types; the error carries their number. */
  lemma GenerateTaskTypeCountInvalid(users: seq<User>, existing: seq<TaskItem>, types: seq<TaskType>, companyId: int, monday: Day, week: int, year: int)
    ensures var r := Generate(users, existing, types, companyId, monday, week, year);
      r.Err? && r.error.TaskTypeCountInvalid? <==>
        && HasActiveUser(users, companyId) && TeamsFull(users, companyId)
        && !WeekExists(existing, week, year)
        && |types| != TeamSize
    ensures var r := Generate(users, existing, types, companyId, monday, week, year);
      r.Err? && r.error.TaskTypeCountInvalid? ==> r.error.count == |types|
  {
    HasActiveUserIff(users, companyId);
    NoBadTeamIff(users, companyId);
  }

  /** Generation succeeds exactly when all four checks pass. */
  lemma GenerateSucceeds(users: seq<User>, existing: seq<TaskItem>, types: seq<TaskType>, companyId: int, monday: Day, week: int, year: int)
    ensures Generate(users, existing, types, companyId, monday, week, year).Ok? <==>
      && HasActiveUser(users, companyId) && TeamsFull(users, companyId)
      && !WeekExists(existing, week, year)
      && |types| == TeamSize
  {
    HasActiveUserIff(users, companyId);
    NoBadTeamIff(users, companyId);
  }

  /** On success the result is the plan over the company's teams and the types in difficulty order. */
  lemma GeneratedPlan(users: seq<User>, existing: seq<TaskItem>, types: seq<TaskType>, companyId: int, monday: Day, week: int, year: int)
    requires Generate(users, existing, types, companyId, monday, week, year).Ok?
    ensures TeamsOfSix(Teams(users, companyId)) && |TypesByDifficulty(types)| == TeamSize
    ensures Generate(users, existing, types, companyId, monday, week, year).value
      == WeekPlan(Teams(users, companyId), TypesByDifficulty(types), monday, week, year)
  {
  }

  lemma SameIdSameUser(us: seq<User>, x: User, y: User)
    requires DistinctBy(us, UserId) && x in us && y in us && x.id == y.id
    ensures x == y
  {
    var a :| 0 <= a < |us| && us[a] == x;
    var b :| 0 <= b < |us| && us[b] == y;
    assert UserId(us[a]) == UserId(us[b]);
  }

  /** Grouping users with unique ids gives unique ids across all groups. */
  lemma GroupsHaveDistinctMemberIds(us: seq<User>)
    requires DistinctBy(us, UserId)
    ensures MemberIdsDistinct(GroupByTeam(us))
  {
    var teams := GroupByTeam(us);
    forall g1, i1, g2, i2 |
      && 0 <= g1 < |teams| && 0 <= i1 < |teams[g1].members|
      && 0 <= g2 < |teams| && 0 <= i2 < |teams[g2].members|
      && teams[g1].members[i1].id == teams[g2].members[i2].id
      ensures g1 == g2 && i1 == i2
    {
      var x, y := teams[g1].members[i1], teams[g2].members[i2];
      assert x in teams[g1].members && y in teams[g2].members;
      SameIdSameUser(us, x, y);
      assert g1 == g2;
      SubseqKeepsDistinct(teams[g1].members, us, UserId);
      assert UserId(teams[g1].members[i1]) == UserId(teams[g1].members[i2]);
    }
  }

  /** Unique user ids in the table give unique ids across the company's teams. */
  lemma TeamsHaveDistinctMemberIds(users: seq<User>, companyId: int)
    requires DistinctBy(users, UserId)
    ensures MemberIdsDistinct(Teams(users, companyId))
  {
    var active := CompanyUsers(users, companyId);
    var f := Filter(users, ActiveIn(companyId));
    FilterIsSubseq(users, ActiveIn(companyId));
    SubseqKeepsDistinct(f, users, UserId);
    PermutationKeepsDistinct(active, f, UserId);
    GroupsHaveDistinctMemberIds(active);
  }

  /** Every active user of the company has a place in exactly one team. */
  lemma ActiveUserPlace(users: seq<User>, companyId: int, u: User) returns (g: nat, m: nat)
    requires u in users && ActiveIn(companyId)(u)
    ensures g < |Teams(users, companyId)| && m < |Teams(users, companyId)[g].members|
    ensures Teams(users, companyId)[g].members[m] == u
  {
    CompanyUsersAreActiveMembers(users, companyId);
    var teams := Teams(users, companyId);
    assert u in CompanyUsers(users, companyId);
    var g' :| 0 <= g' < |teams| && teams[g'].name == u.teamName && u in teams[g'].members;
    var m' :| 0 <= m' < |teams[g'].members| && teams[g'].members[m'] == u;
    g, m := g', m';
  }

  lemma SameTeamKeyOrdersIds(x: User, y: User)
    requires x.teamName == y.teamName && KeyLe(TeamThenId(x), TeamThenId(y))
    ensures x.id <= y.id
  {
    var a, b := TeamThenId(x), TeamThenId(y);
    StrLtIrreflexive(x.teamName);
    assert a[0] == b[0];
    assert KeyLe(a[1..], b[1..]);
  }

  /** Grouping users sorted by team then id, with unique ids, gives groups in ascending id order. */
  lemma GroupMembersOrderedById(us: seq<User>, g: nat)
    requires SortedBy(us, TeamThenId) && DistinctBy(us, UserId) && g < |GroupByTeam(us)|
    ensures var team := GroupByTeam(us)[g].members;
      forall i, j :: 0 <= i < j < |team| ==> team[i].id < team[j].id
  {
    var team := GroupByTeam(us)[g].members;
    SubseqKeepsSorted(team, us, TeamThenId);
    SubseqKeepsDistinct(team, us, UserId);
    forall i, j | 0 <= i < j < |team| ensures team[i].id < team[j].id {
      assert team[i] in team && team[j] in team;
      SameTeamKeyOrdersIds(team[i], team[j]);
      assert UserId(team[i]) != UserId(team[j]);
    }
  }

  /** Within a team, members are in ascending id order, so member `m` is the `m`-th smallest id. */
  lemma TeamMembersOrderedById(users: seq<User>, companyId: int, g: nat)
    requires DistinctBy(users, UserId) && g < |Teams(users, companyId)|
    ensures var team := Teams(users, companyId)[g].members;
      forall i, j :: 0 <= i < j < |team| ==> team[i].id < team[j].id
  {
    var active := CompanyUsers(users, companyId);
    var f := Filter(users, ActiveIn(companyId));
    FilterIsSubseq(users, ActiveIn(companyId));
    SubseqKeepsDistinct(f, users, UserId);
    PermutationKeepsDistinct(active, f, UserId);
    GroupMembersOrderedById(active, g);
  }

  /** A task made from task type `tt` on a day of the week starting `monday`: it carries the type's
      id and description, and its title is the type name followed by the day's name. */
  predicate MadeFrom(t: TaskItem, tt: TaskType, monday: Day)
  {
    && tt.id == t.taskTypeId && tt.description == t.description
    && monday <= t.assignedDate < monday + 6
    && t.title == TaskTitle(tt.name, t.assignedDate - monday)
  }

  /** Every task of a company's plan is dated Monday to Saturday of the week, carries the week
      number and year, starts `NotStarted`, is due the day it is assigned, and belongs to an active
      user of the company and to one of the task types, whose name and day make up its title. */
  lemma CompanyPlanShape(users: seq<User>, companyId: int, types: seq<TaskType>, monday: Day, week: int, year: int, k: nat)
    requires TeamsOfSix(Teams(users, companyId)) && |types| == TeamSize
    requires k < |WeekPlan(Teams(users, companyId), types, monday, week, year)|
    ensures var t := WeekPlan(Teams(users, companyId), types, monday, week, year)[k];
      && t.status == NotStarted && t.weekNumber == week && t.year == year
      && monday <= t.assignedDate < monday + 6
      && t.dueDate == Some(t.assignedDate)
      && (exists u :: u in users && ActiveIn(companyId)(u) && u.id == t.userId)
      && (exists tt :: tt in types && MadeFrom(t, tt, monday))
  {
    var teams := Teams(users, companyId);
    var t := WeekPlan(teams, types, monday, week, year)[k];
    var g, u, tt := PlanEntryParts(teams, types, monday, week, year, k);
    assert u in teams[g].members;
    CompanyUsersAreActiveMembers(users, companyId);
    assert u in CompanyUsers(users, companyId);
    assert u in users && ActiveIn(companyId)(u) && u.id == t.userId;
    assert tt in types && MadeFrom(t, tt, monday);
  }

  lemma PlanEntryParts(teams: seq<Team>, types: seq<TaskType>, monday: Day, week: int, year: int, k: nat)
    returns (g: nat, u: User, tt: TaskType)
    requires TeamsOfSix(teams) && |types| == TeamSize && k < 36 * |teams|
    ensures var t := WeekPlan(teams, types, monday, week, year)[k];
      && g < |teams| && u in teams[g].members && tt in types
      && t.status == NotStarted && t.weekNumber == week && t.year == year
      && monday <= t.assignedDate < monday + 6
      && t.dueDate == Some(t.assignedDate)
      && u.id == t.userId
      && MadeFrom(t, tt, monday)
  {
    PlanSlot(teams, types, monday, week, year, k);
    var day, slot := (k % 36) / 6, k % 6;
    g := k / 36;
    u := teams[g].members[(slot + day) % 6];
    tt := types[slot];
  }

  /** Every generated task is dated Monday to Saturday of the requested week, carries that week's
      number and year, starts `NotStarted`, is due the day it is assigned, and belongs to an active
      user of the company and to one of the task types, whose name and day make up its title. */
  lemma GeneratedTasksShape(users: seq<User>, existing: seq<TaskItem>, types: seq<TaskType>, companyId: int, monday: Day, week: int, year: int)
    requires Generate(users, existing, types, companyId, monday, week, year).Ok?
    ensures var plan := Generate(users, existing, types, companyId, monday, week, year).value;
      && |plan| == 36 * |Teams(users, companyId)|
      && forall k :: 0 <= k < |plan| ==>
        && plan[k].status == NotStarted
        && plan[k].weekNumber == week && plan[k].year == year
        && monday <= plan[k].assignedDate < monday + 6
        && plan[k].dueDate == Some(plan[k].assignedDate)
        && (exists u :: u in users && ActiveIn(companyId)(u) && u.id == plan[k].userId)
        && (exists t :: t in types && MadeFrom(plan[k], t, monday))
  {
    GeneratedPlan(users, existing, types, companyId, monday, week, year);
    var ordered := TypesByDifficulty(types);
    var plan := Generate(users, existing, types, companyId, monday, week, year).value;
    forall k | 0 <= k < |plan|
      ensures (exists t :: t in types && MadeFrom(plan[k], t, monday))
    {
      CompanyPlanShape(users, companyId, ordered, monday, week, year, k);
      var tt :| tt in ordered && MadeFrom(plan[k], tt, monday);
      assert tt in multiset(ordered);
    }
    forall k | 0 <= k < |plan|
      ensures plan[k].status == NotStarted
      ensures plan[k].weekNumber == week && plan[k].year == year
      ensures monday <= plan[k].assignedDate < monday + 6
      ensures plan[k].dueDate == Some(plan[k].assignedDate)
      ensures (exists u :: u in users && ActiveIn(companyId)(u) && u.id == plan[k].userId)
    {
      CompanyPlanShape(users, companyId, ordered, monday, week, year, k);
    }
  }

  /** The user and the task type a generated task was made for, by position. */
  lemma GeneratedTaskSource(users: seq<User>, existing: seq<TaskItem>, types: seq<TaskType>, companyId: int, monday: Day,
                            week: int, year: int, k: nat)
    returns (i: nat, j: nat)
    requires Generate(users, existing, types, companyId, monday, week, year).Ok?
    requires k < |Generate(users, existing, types, companyId, monday, week, year).value|
    ensures var t := Generate(users, existing, types, companyId, monday, week, year).value[k];
      && i < |users| && ActiveIn(companyId)(users[i]) && users[i].id == t.userId
      && j < |types| && MadeFrom(t, types[j], monday)
  {
    GeneratedPlan(users, existing, types, companyId, monday, week, year);
    var ordered := TypesByDifficulty(types);
    var t := WeekPlan(Teams(users, companyId), ordered, monday, week, year)[k];
    CompanyPlanShape(users, companyId, ordered, monday, week, year, k);
    var u :| u in users && ActiveIn(companyId)(u) && u.id == t.userId;
    var tt :| tt in ordered && MadeFrom(t, tt, monday);
    assert tt in multiset(ordered);
    i :| 0 <= i < |users| && users[i] == u;
    j :| 0 <= j < |types| && types[j] == tt;
  }

  /** With valid task types, every generated task satisfies the task record's declared limits. */
  lemma GeneratedTasksAreValid(users: seq<User>, existing: seq<TaskItem>, types: seq<TaskType>, companyId: int, monday: Day, week: int, year: int)
    requires Generate(users, existing, types, companyId, monday, week, year).Ok?
    requires forall i :: 0 <= i < |types| ==> ValidTaskType(types[i])
    ensures var plan := Generate(users, existing, types, companyId, monday, week, year).value;
      forall k :: 0 <= k < |plan| ==> ValidTaskItem(plan[k])
  {
    var plan := Generate(users, existing, types, companyId, monday, week, year).value;
    forall k | 0 <= k < |plan| ensures ValidTaskItem(plan[k]) {
      var i, j := GeneratedTaskSource(users, existing, types, companyId, monday, week, year, k);
    }
  }

  lemma CompanyPlanOneTaskPerUserPerDay(users: seq<User>, companyId: int, types: seq<TaskType>, monday: Day,
                                        week: int, year: int, u: User, day: nat)
    requires TeamsOfSix(Teams(users, companyId)) && |types| == TeamSize
    requires DistinctBy(users, UserId) && u in users && ActiveIn(companyId)(u) && day < 6
    ensures var plan := WeekPlan(Teams(users, companyId), types, monday, week, year);
      OneTaskOnDate(plan, u.id, monday + day)
  {
    TeamsHaveDistinctMemberIds(users, companyId);
    var g, m := ActiveUserPlace(users, companyId, u);
    PlanOneTaskPerMemberPerDay(Teams(users, companyId), types, monday, week, year, g, m, day);
  }

  /** Each active user of the company gets exactly one task on each of the six days. */
  lemma GenerateOneTaskPerUserPerDay(users: seq<User>, existing: seq<TaskItem>, types: seq<TaskType>, companyId: int,
                                     monday: Day, week: int, year: int, u: User, day: nat)
    requires Generate(users, existing, types, companyId, monday, week, year).Ok?
    requires DistinctBy(users, UserId) && u in users && ActiveIn(companyId)(u) && day < 6
    ensures var plan := Generate(users, existing, types, companyId, monday, week, year).value;
      OneTaskOnDate(plan, u.id, monday + day)
  {
    GeneratedPlan(users, existing, types, companyId, monday, week, year);
    CompanyPlanOneTaskPerUserPerDay(users, companyId, TypesByDifficulty(types), monday, week, year, u, day);
  }

  lemma CompanyPlanEachTypeOncePerUser(users: seq<User>, companyId: int, ordered: seq<TaskType>, monday: Day,
                                       week: int, year: int, u: User, j: nat)
    requires TeamsOfSix(Teams(users, companyId)) && |ordered| == TeamSize
    requires DistinctBy(users, UserId) && DistinctBy(ordered, TypeId)
    requires u in users && ActiveIn(companyId)(u) && j < TeamSize
    ensures var plan := WeekPlan(Teams(users, companyId), ordered, monday, week, year);
      OneTaskOfType(plan, u.id, ordered[j].id)
  {
    TeamsHaveDistinctMemberIds(users, companyId);
    var g, m := ActiveUserPlace(users, companyId, u);
    PlanEachTypeOncePerMember(Teams(users, companyId), ordered, monday, week, year, g, m, j);
  }

  /** Over the week, each active user of the company gets each task type exactly once. */
  lemma GenerateEachTypeOncePerUser(users: seq<User>, existing: seq<TaskItem>, types: seq<TaskType>, companyId: int,
                                    monday: Day, week: int, year: int, u: User, t: TaskType)
    requires Generate(users, existing, types, companyId, monday, week, year).Ok?
    requires DistinctBy(users, UserId) && DistinctBy(types, TypeId)
    requires u in users && ActiveIn(companyId)(u) && t in types
    ensures var plan := Generate(users, existing, types, companyId, monday, week, year).value;
      OneTaskOfType(plan, u.id, t.id)
  {
    GeneratedPlan(users, existing, types, companyId, monday, week, year);
    var ordered := TypesByDifficulty(types);
    PermutationKeepsDistinct(ordered, types, TypeId);
    assert t in multiset(ordered);
    var j :| 0 <= j < |ordered| && ordered[j] == t;
    CompanyPlanEachTypeOncePerUser(users, companyId, ordered, monday, week, year, u, j);
  }
}
