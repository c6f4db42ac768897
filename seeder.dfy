/** `DbSeeder.SeedData`: six task types when that table is empty; fifteen companies and one admin
    user when the company table is empty. The admin's password hash is a BCrypt call, so it is a
    parameter. */
module Seeder {

  import opened Seqs
  import opened Calendar
  import opened Models
  import Engine

  /** The six task types, one per difficulty level, with the ids an empty table hands out. */
  const SeedTaskTypes: seq<TaskType> := [
    TaskType(1, "Frontend Development", 1, "React, Vue, Angular geliştirme"),
    TaskType(2, "Backend API Development", 2, "REST API, GraphQL geliştirme"),
    TaskType(3, "Database Operations", 3, "SQL, NoSQL veritabanı işlemleri"),
    TaskType(4, "Testing & QA", 4, "Unit test, integration test"),
    TaskType(5, "DevOps & Deployment", 5, "CI/CD, Docker, Kubernetes"),
    TaskType(6, "Code Review & Documentation", 6, "Kod inceleme ve dokümantasyon")
  ]

  const CompanyNames: seq<string> := [
    "TechSoft A.Ş.", "Digital Solutions Ltd.", "Innovation Systems", "Smart Development Co.",
    "Future Technologies", "Cloud Computing Inc.", "AI Solutions Group", "Data Analytics Pro",
    "Mobile Apps Studio", "Web Development Hub", "Cyber Security Corp", "Blockchain Ventures",
    "IoT Innovations", "Machine Learning Co.", "DevOps Solutions"
  ]

  /** The fifteen companies, all active, with the ids an empty table hands out. */
  function SeedCompanies(): (cs: seq<Company>)
    ensures |cs| == 15
    ensures forall i :: 0 <= i < 15 ==> cs[i] == Company(i + 1, CompanyNames[i], true)
  {
    seq(15, i requires 0 <= i < 15 => Company(i + 1, CompanyNames[i], true))
  }

  const AdminTeam := "Admin Ekibi"

  function AdminUser(id: int, companyId: int, passwordHash: string): User
  {
    User(id, "Admin", "User", "admin@example.com", passwordHash, companyId, AdminTeam, true)
  }

  /** The tables after `SeedData`. */
  function Seed(db: Tables, adminHash: string): Tables
  {
    var types := if |db.taskTypes| == 0 then SeedTaskTypes else db.taskTypes;
    if |db.companies| == 0 then
      var companies := SeedCompanies();
      db.(taskTypes := types, companies := companies,
          users := db.users + [AdminUser(|db.users| + 1, companies[0].id, adminHash)])
    else db.(taskTypes := types)
  }

  lemma SeedTaskTypesValid()
    ensures forall i :: 0 <= i < |SeedTaskTypes| ==> ValidTaskType(SeedTaskTypes[i])
  {
    forall i | 0 <= i < |SeedTaskTypes| ensures ValidTaskType(SeedTaskTypes[i]) {
      assert !IsWhiteSpace(SeedTaskTypes[i].name[0]);
    }
  }

  /** Seeding an empty task-type table gives exactly six valid types, with levels 1 to 6, one
      each; a table that has rows is left alone. */
  lemma SeedEstablishesSixTaskTypes(db: Tables, adminHash: string)
    ensures |db.taskTypes| == 0 ==>
      var types := Seed(db, adminHash).taskTypes;
      && |types| == Engine.TeamSize
      && (forall i :: 0 <= i < |types| ==> types[i].difficultyLevel == i + 1 && ValidTaskType(types[i]))
    ensures |db.taskTypes| > 0 ==> Seed(db, adminHash).taskTypes == db.taskTypes
  {
    SeedTaskTypesValid();
  }

  /** Seeding an empty company table adds fifteen active companies and appends one active admin in
      team "Admin Ekibi" of the first company; a company table that has rows leaves companies and
      users alone. Tasks are never touched. */
  lemma SeedCompaniesAndAdmin(db: Tables, adminHash: string)
    ensures var after := Seed(db, adminHash);
      && after.tasks == db.tasks
      && (|db.companies| == 0 ==>
            && |after.companies| == 15
            && (forall i :: 0 <= i < 15 ==> after.companies[i].isActive && after.companies[i].id == i + 1)
            && after.users == db.users + [AdminUser(|db.users| + 1, 1, adminHash)])
      && (|db.companies| > 0 ==> after.companies == db.companies && after.users == db.users)
  {
  }

  /** Seeding twice seeds once. */
  lemma SeedIdempotent(db: Tables, hash1: string, hash2: string)
    ensures Seed(Seed(db, hash1), hash2) == Seed(db, hash1)
  {
    assert |Seed(db, hash1).taskTypes| > 0 by {
      if |db.taskTypes| == 0 { assert |SeedTaskTypes| == 6; }
    }
  }

  /** The admin is the only user of a freshly seeded database, and its team has one member. */
  lemma AdminTeamCount(hash: string)
    ensures Engine.TeamCount([AdminUser(1, 1, hash)], 1, AdminTeam) == 1
  {
    var admin := AdminUser(1, 1, hash);
    assert Engine.ActiveInTeam(1, AdminTeam)(admin);
    assert admin in Filter([admin], Engine.ActiveInTeam(1, AdminTeam));
  }

  /** Right after seeding an empty database, weekly generation for the first company fails the
      team-size check: team "Admin Ekibi" has one member. */
  lemma SeedThenGenerateFails(db: Tables, adminHash: string, monday: Day, week: int, year: int)
    requires db.users == [] && db.companies == []
    ensures var after := Seed(db, adminHash);
      Engine.Generate(after.users, after.tasks, after.taskTypes, 1, monday, week, year) == Err(Engine.TeamSizeInvalid(AdminTeam, 1))
  {
    var after := Seed(db, adminHash);
    var admin := AdminUser(1, 1, adminHash);
    assert after.users == [admin];
    AdminTeamCount(adminHash);
    assert Engine.ActiveIn(1)(after.users[0]);
    assert !Engine.TeamsFull(after.users, 1);
    Engine.GenerateTeamSizeInvalid(after.users, after.tasks, after.taskTypes, 1, monday, week, year);
  }
}
