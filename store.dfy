/** The database context as an object whose four tables the operations change in place:
    seeding, registration, weekly generation (the service's checks and assignment loops, then one
    `AddRange`), and the status update. Each keeps the table invariant `TablesValid`. */
module Store {

  import opened Seqs
  import opened Calendar
  import opened Models
  import opened Engine
  import Queries
  import Auth
  import Seeder

  /** Unique positions give unique ids. */
  lemma ValidIdsDistinct(db: Tables)
    requires TablesValid(db)
    ensures DistinctBy(db.users, UserId) && DistinctBy(db.taskTypes, TypeId) && DistinctBy(db.tasks, TaskId)
  {
  }

  /** A user needs a company to belong to, and a task a user. */
  lemma ForeignKeysNeedRows(db: Tables)
    requires TablesValid(db)
    ensures |db.users| > 0 ==> |db.companies| > 0
    ensures |db.tasks| > 0 ==> |db.users| > 0
  {
    if |db.users| > 0 {
      assert 1 <= db.users[0].companyId <= |db.companies|;
    }
    if |db.tasks| > 0 {
      assert 1 <= db.tasks[0].userId <= |db.users|;
    }
  }

  /** Seeding keeps the table invariant. */
  lemma SeedKeepsValid(db: Tables, adminHash: string)
    requires TablesValid(db)
    ensures TablesValid(Seeder.Seed(db, adminHash))
  {
    var types := if |db.taskTypes| == 0 then Seeder.SeedTaskTypes else db.taskTypes;
    SeededTypesNumbered(db.taskTypes);
    if |db.companies| == 0 {
      ForeignKeysNeedRows(db);
      var admin := Seeder.AdminUser(1, 1, adminHash);
      assert Seeder.Seed(db, adminHash) == Tables([admin], Seeder.SeedCompanies(), types, []);
      FirstCompanyTablesValid(types, admin);
    } else {
      assert Seeder.Seed(db, adminHash) == db.(taskTypes := types);
    }
  }

  lemma SeededTypesNumbered(types: seq<TaskType>)
    requires forall i :: 0 <= i < |types| ==> types[i].id == i + 1
    ensures var seeded := if |types| == 0 then Seeder.SeedTaskTypes else types;
      |seeded| >= |types| && forall i :: 0 <= i < |seeded| ==> seeded[i].id == i + 1
  {
  }

  lemma FirstCompanyTablesValid(types: seq<TaskType>, admin: User)
    requires forall i :: 0 <= i < |types| ==> types[i].id == i + 1
    requires admin.id == 1 && admin.companyId == 1
    ensures TablesValid(Tables([admin], Seeder.SeedCompanies(), types, []))
  {
  }

  /** Registration keeps the table invariant: the new user takes the next id, its e-mail address is
      new, and its company exists. */
  lemma RegisterKeepsValid(db: Tables, req: Auth.RegisterRequest, passwordHash: string)
    requires TablesValid(db)
    requires Auth.RegisterUser(db.users, db.companies, req, passwordHash, |db.users| + 1).Ok?
    ensures TablesValid(db.(users := db.users + [Auth.RegisterUser(db.users, db.companies, req, passwordHash, |db.users| + 1).value]))
  {
    var u := Auth.RegisterUser(db.users, db.companies, req, passwordHash, |db.users| + 1).value;
    Auth.RegisterKeepsEmailsUnique(db.users, db.companies, req, passwordHash, |db.users| + 1);
    assert Auth.CompanyExists(db.companies, req.companyId);
    var c :| 0 <= c < |db.companies| && db.companies[c].id == req.companyId;
    var users := db.users + [u];
    assert forall i :: 0 <= i < |db.users| ==> users[i] == db.users[i];
  }

  /** The generated plan with the ids the insert assigns, from `firstId` on. */
  function Numbered(plan: seq<TaskItem>, firstId: int): (r: seq<TaskItem>)
    ensures |r| == |plan|
    ensures forall k :: 0 <= k < |plan| ==> r[k] == plan[k].(id := firstId + k)
  {
    seq(|plan|, k requires 0 <= k < |plan| => plan[k].(id := firstId + k))
  }

  /** Inserting a generated week keeps the table invariant: every task gets the next id and refers
      to an existing user and task type. */
  lemma GenerateKeepsValid(db: Tables, companyId: int, monday: Day, week: int, year: int)
    requires TablesValid(db)
    requires Generate(db.users, db.tasks, db.taskTypes, companyId, monday, week, year).Ok?
    ensures var plan := Generate(db.users, db.tasks, db.taskTypes, companyId, monday, week, year).value;
      TablesValid(db.(tasks := db.tasks + Numbered(plan, |db.tasks| + 1)))
  {
    var plan := Generate(db.users, db.tasks, db.taskTypes, companyId, monday, week, year).value;
    var added := Numbered(plan, |db.tasks| + 1);
    forall j | 0 <= j < |added|
      ensures added[j].id == |db.tasks| + j + 1
      ensures 1 <= added[j].userId <= |db.users| && 1 <= added[j].taskTypeId <= |db.taskTypes|
    {
      var a, b := GeneratedTaskSource(db.users, db.tasks, db.taskTypes, companyId, monday, week, year, j);
    }
    AppendTasksKeepsValid(db, added);
  }

  /** Appending tasks that take the next ids and refer to existing rows keeps the table invariant. */
  lemma AppendTasksKeepsValid(db: Tables, added: seq<TaskItem>)
    requires TablesValid(db)
    requires forall j :: 0 <= j < |added| ==> added[j].id == |db.tasks| + j + 1
    requires forall j :: 0 <= j < |added| ==>
      1 <= added[j].userId <= |db.users| && 1 <= added[j].taskTypeId <= |db.taskTypes|
    ensures TablesValid(db.(tasks := db.tasks + added))
  {
    var tasks := db.tasks + added;
    forall k | 0 <= k < |tasks|
      ensures tasks[k].id == k + 1
      ensures 1 <= tasks[k].userId <= |db.users| && 1 <= tasks[k].taskTypeId <= |db.taskTypes|
    {
      if k >= |db.tasks| {
        assert tasks[k] == added[k - |db.tasks|];
      }
    }
  }

  /** Generating the same week again fails for every company: a company that passes the team checks
      now finds the week taken, because the week check does not look at the company. */
  lemma GenerateTwiceFails(db: Tables, companyId: int, otherCompany: int, monday: Day, week: int, year: int)
    requires Generate(db.users, db.tasks, db.taskTypes, companyId, monday, week, year).Ok?
    ensures var plan := Generate(db.users, db.tasks, db.taskTypes, companyId, monday, week, year).value;
      var again := Generate(db.users, db.tasks + Numbered(plan, |db.tasks| + 1), db.taskTypes, otherCompany, monday, week, year);
      && again.Err?
      && (HasActiveUser(db.users, otherCompany) && TeamsFull(db.users, otherCompany) ==>
            again == Err(WeekAlreadyGenerated(year, week)))
  {
    var plan := Generate(db.users, db.tasks, db.taskTypes, companyId, monday, week, year).value;
    var tasks := db.tasks + Numbered(plan, |db.tasks| + 1);
    GenerateSucceeds(db.users, db.tasks, db.taskTypes, companyId, monday, week, year);
    var i :| 0 <= i < |db.users| && ActiveIn(companyId)(db.users[i]);
    var g, m := ActiveUserPlace(db.users, companyId, db.users[i]);
    GeneratedTasksShape(db.users, db.tasks, db.taskTypes, companyId, monday, week, year);
    assert |plan| > 0;
    assert tasks[|db.tasks|].weekNumber == plan[0].weekNumber && tasks[|db.tasks|].year == plan[0].year;
    assert WeekExists(tasks, week, year);
    GenerateSucceeds(db.users, tasks, db.taskTypes, otherCompany, monday, week, year);
    GenerateWeekAlreadyGenerated(db.users, tasks, db.taskTypes, otherCompany, monday, week, year);
  }

  /** A status update keeps the table invariant. */
  lemma UpdateKeepsValid(db: Tables, taskId: int, statusText: string, parse: string -> Option<int>)
    requires TablesValid(db)
    requires Queries.UpdateStatus(db.tasks, taskId, statusText, parse).Ok?
    ensures TablesValid(db.(tasks := Queries.UpdateStatus(db.tasks, taskId, statusText, parse).value))
  {
  }

  /** The result of a successful status update: the task id, the new status as text, and the name
      of the task's user. */
  datatype StatusUpdated = StatusUpdated(taskId: int, newStatus: string, userName: string)

  class Database {
    var users: seq<User>
    var companies: seq<Company>
    var taskTypes: seq<TaskType>
    var tasks: seq<TaskItem>

    function Snapshot(): Tables
      reads this
    {
      Tables(users, companies, taskTypes, tasks)
    }

    ghost predicate Valid()
      reads this
    {
      TablesValid(Snapshot())
    }

    constructor()
      ensures Snapshot() == Tables([], [], [], []) && Valid()
    {
      users, companies, taskTypes, tasks := [], [], [], [];
    }

    /** `DbSeeder.SeedData`. */
    method SeedData(adminHash: string)
      requires Valid()
      modifies this
      ensures Valid() && Snapshot() == Seeder.Seed(old(Snapshot()), adminHash)
    {
      if |taskTypes| == 0 {
        taskTypes := taskTypes + Seeder.SeedTaskTypes;
      }
      if |companies| == 0 {
        var seeded := Seeder.SeedCompanies();
        companies := companies + seeded;
        var firstCompany := seeded[0];
        users := users + [Seeder.AdminUser(|users| + 1, firstCompany.id, adminHash)];
      }
      assert Snapshot() == Seeder.Seed(old(Snapshot()), adminHash);
      SeedKeepsValid(old(Snapshot()), adminHash);
    }

    /** `AuthController.Register`: the e-mail, company and team-size checks in that order, then one
        active user appended under the next id. */
    method Register(req: Auth.RegisterRequest, passwordHash: string) returns (r: Result<User, Auth.RegisterError>)
      requires Valid()
      modifies this
      ensures Valid()
      ensures r == Auth.RegisterUser(old(users), old(companies), req, passwordHash, |old(users)| + 1)
      ensures users == (if r.Ok? then old(users) + [r.value] else old(users))
      ensures companies == old(companies) && taskTypes == old(taskTypes) && tasks == old(tasks)
    {
      if FindIndex(users, Email, req.email) >= 0 {
        return Err(Auth.EmailInUse);
      }
      var c := FindIndex(companies, CompanyId, req.companyId);
      if c < 0 {
        return Err(Auth.CompanyNotFound);
      }
      var company := companies[c];
      if TeamCount(users, req.companyId, req.teamName) >= Auth.MaxTeamSize {
        return Err(Auth.TeamFull(req.teamName));
      }
      var user := User(|users| + 1, req.firstName, req.lastName, req.email, passwordHash, company.id, req.teamName, true);
      r := Ok(user);
      RegisterKeepsValid(Snapshot(), req, passwordHash);
      users := users + [user];
    }

    /** `TaskService.GenerateWeeklyTasks`: the four checks, the assignment loops, and one insert of
        the whole week, which numbers the new tasks. A failed check changes nothing. */
    method GenerateWeeklyTasks(companyId: int, monday: Day) returns (r: Result<seq<TaskItem>, GenError>)
      requires Valid()
      modifies this
      ensures Valid()
      ensures users == old(users) && companies == old(companies) && taskTypes == old(taskTypes)
      ensures var g := Generate(old(users), old(tasks), old(taskTypes), companyId, monday, WeekOfYear(monday), Year(monday));
        && (g.Err? ==> r == g && tasks == old(tasks))
        && (g.Ok? ==> r == Ok(Numbered(g.value, |old(tasks)| + 1)) && tasks == old(tasks) + r.value)
    {
      var result := GenerateWeek(users, tasks, taskTypes, companyId, monday);
      if result.Err? {
        return Err(result.error);
      }
      var added := Numbered(result.value, |tasks| + 1);
      GenerateKeepsValid(Snapshot(), companyId, monday, WeekOfYear(monday), Year(monday));
      tasks := tasks + added;
      r := Ok(added);
    }

    /** `TasksController.UpdateTaskStatus`: not found before the status is parsed; an unparsable
        status changes nothing; otherwise only that task's status changes. */
    method UpdateTaskStatus(taskId: int, statusText: string, parse: string -> Option<int>)
      returns (r: Result<StatusUpdated, Queries.UpdateError>)
      requires Valid()
      modifies this
      ensures Valid()
      ensures users == old(users) && companies == old(companies) && taskTypes == old(taskTypes)
      ensures var u := Queries.UpdateStatus(old(tasks), taskId, statusText, parse);
        && (u.Err? ==> r == Err(u.error) && tasks == old(tasks))
        && (u.Ok? ==> r.Ok? && tasks == u.value)
      ensures r.Ok? ==> r.value.taskId == taskId && r.value.newStatus == StatusName(parse(statusText).value)
    {
      var i := FindIndex(tasks, TaskId, taskId);
      if i < 0 {
        return Err(Queries.TaskNotFound);
      }
      var task := tasks[i];
      var parsed := parse(statusText);
      if parsed.None? {
        return Err(Queries.InvalidStatus);
      }
      var status := parsed.value;
      UpdateKeepsValid(Snapshot(), taskId, statusText, parse);
      tasks := Queries.WithStatus(tasks, i, status);
      var owner := users[task.userId - 1];
      r := Ok(StatusUpdated(taskId, StatusName(status), owner.firstName + " " + owner.lastName));
    }
  }
}
