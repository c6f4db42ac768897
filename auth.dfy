/** `AuthController`: the guard sequence of `Register` and the user it appends, the single failure
    of `Login`, and the company list of `GetCompanies`. Password hashing and checking are BCrypt
    calls, so they enter as a given hash and a given `verify` predicate. */
module Auth {

  import opened Seqs
  import opened Ordering
  import opened Models
  import Engine

  datatype RegisterRequest = RegisterRequest(
    firstName: string,
    lastName: string,
    email: string,
    password: string,
    companyId: int,
    teamName: string)

  datatype RegisterError = EmailInUse | CompanyNotFound | TeamFull(teamName: string)

  /** Members per team that registration admits. */
  const MaxTeamSize := 6

  predicate EmailTaken(users: seq<User>, email: string)
  {
    exists i :: 0 <= i < |users| && users[i].email == email
  }

  predicate CompanyExists(companies: seq<Company>, id: int)
  {
    exists i :: 0 <= i < |companies| && companies[i].id == id
  }

  /** The guards of `Register`, in order, and the user it creates: id `newId` from the table,
      `passwordHash` the hash of the request's password. */
  function RegisterUser(users: seq<User>, companies: seq<Company>, req: RegisterRequest, passwordHash: string, newId: int)
    : (r: Result<User, RegisterError>)
    ensures r == Err(EmailInUse) <==> EmailTaken(users, req.email)
    ensures r == Err(CompanyNotFound) <==> !EmailTaken(users, req.email) && !CompanyExists(companies, req.companyId)
    ensures r == Err(TeamFull(req.teamName)) <==>
      && !EmailTaken(users, req.email) && CompanyExists(companies, req.companyId)
      && Engine.TeamCount(users, req.companyId, req.teamName) >= MaxTeamSize
    ensures r.Err? ==> r.error in {EmailInUse, CompanyNotFound, TeamFull(req.teamName)}
    ensures r.Ok? ==>
      && r.value.isActive && r.value.email == req.email
      && r.value.companyId == req.companyId && r.value.teamName == req.teamName
      && r.value.id == newId && r.value.passwordHash == passwordHash
      && r.value.firstName == req.firstName && r.value.lastName == req.lastName
  {
    if FindIndex(users, Email, req.email) >= 0 then Err(EmailInUse)
    else if FindIndex(companies, CompanyId, req.companyId) < 0 then Err(CompanyNotFound)
    else if Engine.TeamCount(users, req.companyId, req.teamName) >= MaxTeamSize then Err(TeamFull(req.teamName))
    else Ok(User(newId, req.firstName, req.lastName, req.email, passwordHash, req.companyId, req.teamName, true))
  }

  /** No team of any company has more than six active users. */
  ghost predicate TeamsAtMostSix(users: seq<User>)
  {
    forall c: int, t: string :: Engine.TeamCount(users, c, t) <= MaxTeamSize
  }

  /** Appending `u` adds one to the count of its own team, if it is active, and leaves every other
      count alone. */
  lemma TeamCountAppend(users: seq<User>, u: User, c: int, t: string)
    ensures Engine.TeamCount(users + [u], c, t) ==
      Engine.TeamCount(users, c, t) + (if u.companyId == c && u.isActive && u.teamName == t then 1 else 0)
  {
    FilterAppend(users, [u], Engine.ActiveInTeam(c, t));
  }

  /** Registration keeps every team at six active users or fewer. */
  lemma RegisterKeepsTeamsAtMostSix(users: seq<User>, companies: seq<Company>, req: RegisterRequest, passwordHash: string, newId: int)
    requires TeamsAtMostSix(users)
    requires RegisterUser(users, companies, req, passwordHash, newId).Ok?
    ensures TeamsAtMostSix(users + [RegisterUser(users, companies, req, passwordHash, newId).value])
  {
    var u := RegisterUser(users, companies, req, passwordHash, newId).value;
    forall c: int, t: string ensures Engine.TeamCount(users + [u], c, t) <= MaxTeamSize {
      TeamCountAppend(users, u, c, t);
    }
  }

  /** Registration keeps e-mail addresses unique (the unique index on `Email`). */
  lemma RegisterKeepsEmailsUnique(users: seq<User>, companies: seq<Company>, req: RegisterRequest, passwordHash: string, newId: int)
    requires DistinctBy(users, Email)
    requires RegisterUser(users, companies, req, passwordHash, newId).Ok?
    ensures DistinctBy(users + [RegisterUser(users, companies, req, passwordHash, newId).value], Email)
  {
    var u := RegisterUser(users, companies, req, passwordHash, newId).value;
    var s := users + [u];
    forall i, j | 0 <= i < j < |s| ensures Email(s[i]) != Email(s[j]) {
      if j == |users| {
        assert s[i] == users[i];
      } else {
        assert s[i] == users[i] && s[j] == users[j];
      }
    }
  }

  datatype LoginError = InvalidCredentials

  /** `Login`: the first user with the e-mail, if the password checks against its hash. An unknown
      address and a wrong password give the same error, and the active flag is not consulted. */
  function Login(users: seq<User>, email: string, password: string, verify: (string, string) -> bool)
    : (r: Result<User, LoginError>)
    ensures r.Ok? ==> r.value in users && r.value.email == email && verify(password, r.value.passwordHash)
    ensures r.Ok? ==> forall i :: 0 <= i < |users| && users[i].email == email ==> r.value == users[FindIndex(users, Email, email)]
    ensures !EmailTaken(users, email) ==> r == Err(InvalidCredentials)
    ensures r.Err? ==> r == Err(InvalidCredentials)
  {
    var i := FindIndex(users, Email, email);
    if i < 0 || !verify(password, users[i].passwordHash) then Err(InvalidCredentials)
    else Ok(users[i])
  }

  /** With unique e-mail addresses, login succeeds exactly for a stored user whose hash accepts the
      password, whatever its active flag. */
  lemma LoginSucceedsIff(users: seq<User>, email: string, password: string, verify: (string, string) -> bool)
    requires DistinctBy(users, Email)
    ensures Login(users, email, password, verify).Ok? <==>
      exists i :: 0 <= i < |users| && users[i].email == email && verify(password, users[i].passwordHash)
  {
    if exists i :: 0 <= i < |users| && users[i].email == email && verify(password, users[i].passwordHash) {
      var i :| 0 <= i < |users| && users[i].email == email && verify(password, users[i].passwordHash);
      assert Email(users[i]) == email;
      assert FindIndex(users, Email, email) == i;
    }
  }

  /** One row of the company list. */
  datatype CompanyEntry = CompanyEntry(id: int, name: string)

  function IsActiveCompany(c: Company): bool { c.isActive }

  function ByName(c: Company): SortKey { [Text(c.name)] }

  /** Two names in non-decreasing key order are not in strictly decreasing string order. */
  lemma NameKeyOrder(a: Company, b: Company)
    requires KeyLe(ByName(a), ByName(b))
    ensures !StrLt(b.name, a.name)
  {
    StrLtIrreflexive(a.name);
    if StrLt(b.name, a.name) && StrLt(a.name, b.name) {
      StrLtTransitive(a.name, b.name, a.name);
    }
  }

  /** `GetCompanies`: the active companies, ordered by name, as (id, name). */
  function GetCompanies(companies: seq<Company>): (r: seq<CompanyEntry>)
    ensures forall i :: 0 <= i < |r| ==> Company(r[i].id, r[i].name, true) in companies
    ensures forall c :: c in companies && c.isActive ==> CompanyEntry(c.id, c.name) in r
    ensures forall i, j :: 0 <= i < j < |r| ==> !StrLt(r[j].name, r[i].name)
    ensures multiset(r) == multiset(Entries(Filter(companies, IsActiveCompany)))
  {
    var r := Entries(SortBy(Filter(companies, IsActiveCompany), ByName));
    SortedActiveCompanies(companies, r);
    r
  }

  /** The (id, name) projection, position by position. */
  function Entries(cs: seq<Company>): (r: seq<CompanyEntry>)
    ensures |r| == |cs| && forall i :: 0 <= i < |cs| ==> r[i] == CompanyEntry(cs[i].id, cs[i].name)
  {
    seq(|cs|, i requires 0 <= i < |cs| => CompanyEntry(cs[i].id, cs[i].name))
  }

  lemma SortedActiveCompanies(companies: seq<Company>, r: seq<CompanyEntry>)
    requires r == Entries(SortBy(Filter(companies, IsActiveCompany), ByName))
    ensures forall i :: 0 <= i < |r| ==> Company(r[i].id, r[i].name, true) in companies
    ensures forall c :: c in companies && c.isActive ==> CompanyEntry(c.id, c.name) in r
    ensures forall i, j :: 0 <= i < j < |r| ==> !StrLt(r[j].name, r[i].name)
    ensures multiset(r) == multiset(Entries(Filter(companies, IsActiveCompany)))
  {
    var active := Filter(companies, IsActiveCompany);
    var sorted := SortBy(active, ByName);
    assert multiset(r) == multiset(Entries(active)) by {
      EntriesPermutation(sorted, active);
    }
    assert forall c :: c in sorted <==> c in active by {
      forall c ensures c in sorted <==> c in active {
        assert c in multiset(sorted) <==> c in multiset(active);
      }
    }
    forall i | 0 <= i < |r| ensures Company(r[i].id, r[i].name, true) in companies {
      assert sorted[i] in sorted;
    }
    forall c | c in companies && c.isActive ensures CompanyEntry(c.id, c.name) in r {
      assert IsActiveCompany(c);
      var i :| 0 <= i < |sorted| && sorted[i] == c;
      assert r[i] == CompanyEntry(c.id, c.name);
    }
    forall i, j | 0 <= i < j < |r| ensures !StrLt(r[j].name, r[i].name) {
      NameKeyOrder(sorted[i], sorted[j]);
    }
  }

  lemma EntriesAppend(a: seq<Company>, b: seq<Company>)
    ensures Entries(a + b) == Entries(a) + Entries(b)
  {
    assert forall i :: 0 <= i < |a + b| ==> Entries(a + b)[i] == (Entries(a) + Entries(b))[i];
  }

  /** Projecting two permutations of each other gives permutations of each other. */
  lemma {:induction false} EntriesPermutation(a: seq<Company>, b: seq<Company>)
    requires multiset(a) == multiset(b)
    ensures multiset(Entries(a)) == multiset(Entries(b))
    decreases |a|
  {
    if a != [] {
      var x := a[0];
      assert x in multiset(b);
      var k :| 0 <= k < |b| && b[k] == x;
      var rest := RemoveAt(a, b, k);
      EntriesPermutation(a[1..], rest);
      EntriesAppend([x], a[1..]);
      EntriesAppend(b[..k], b[k + 1..]);
      EntriesAppend(b[..k] + [x], b[k + 1..]);
      EntriesAppend(b[..k], [x]);
    }
  }

  /** Removing the first element of `a` from its permutation `b` at position `k`. */
  lemma RemoveAt(a: seq<Company>, b: seq<Company>, k: nat) returns (rest: seq<Company>)
    requires multiset(a) == multiset(b) && k < |b| && a != [] && b[k] == a[0]
    ensures rest == b[..k] + b[k + 1..] && multiset(a[1..]) == multiset(rest)
    ensures a == [a[0]] + a[1..] && b == b[..k] + [a[0]] + b[k + 1..]
  {
    rest := b[..k] + b[k + 1..];
    assert b == b[..k] + [a[0]] + b[k + 1..];
    assert a == [a[0]] + a[1..];
    assert multiset(rest) == multiset(b) - multiset{a[0]} by {
      assert multiset(b) == multiset(b[..k]) + multiset{a[0]} + multiset(b[k + 1..]);
    }
    assert multiset(a[1..]) == multiset(a) - multiset{a[0]} by {
      assert multiset(a) == multiset{a[0]} + multiset(a[1..]);
    }
  }
}
