/** The stored records (tasks, task types, users, companies), the task status enumeration and
    the data-annotation limits declared on them. */
module Models {

  import opened Seqs
  import opened Calendar

  /** `TaskItemStatus` is a C# enum, so a stored status is its underlying integer; the three
      named values are these. */
  const NotStarted := 0
  const InProgress := 1
  const Completed := 2

  predicate IsNamedStatus(v: int)
  {
    v == NotStarted || v == InProgress || v == Completed
  }

  datatype TaskItem = TaskItem(
    id: int,
    title: string,
    description: string,
    userId: int,
    taskTypeId: int,
    status: int,
    assignedDate: Day,
    dueDate: Option<Day>,
    weekNumber: int,
    year: int)

  datatype TaskType = TaskType(id: int, name: string, difficultyLevel: int, description: string)

  datatype User = User(
    id: int,
    firstName: string,
    lastName: string,
    email: string,
    passwordHash: string,
    companyId: int,
    teamName: string,
    isActive: bool)

  datatype Company = Company(id: int, name: string, isActive: bool)

  function TaskId(t: TaskItem): int { t.id }

  function UserId(u: User): int { u.id }

  function TypeId(t: TaskType): int { t.id }

  function CompanyId(c: Company): int { c.id }

  function Email(u: User): string { u.email }

  /** The four tables of the database context. */
  datatype Tables = Tables(users: seq<User>, companies: seq<Company>, taskTypes: seq<TaskType>, tasks: seq<TaskItem>)

  /** What the database keeps true: ids are autoincrement positions (no row is ever deleted),
      e-mail addresses are unique (the unique index on `Email`), and every foreign key resolves. */
  ghost predicate TablesValid(db: Tables)
  {
    && (forall i :: 0 <= i < |db.users| ==> db.users[i].id == i + 1)
    && (forall i :: 0 <= i < |db.companies| ==> db.companies[i].id == i + 1)
    && (forall i :: 0 <= i < |db.taskTypes| ==> db.taskTypes[i].id == i + 1)
    && (forall i :: 0 <= i < |db.tasks| ==> db.tasks[i].id == i + 1)
    && DistinctBy(db.users, Email)
    && (forall i :: 0 <= i < |db.users| ==> 1 <= db.users[i].companyId <= |db.companies|)
    && (forall i :: 0 <= i < |db.tasks| ==>
          1 <= db.tasks[i].userId <= |db.users| && 1 <= db.tasks[i].taskTypeId <= |db.taskTypes|)
  }

  /** The decimal digits of `n`, most significant first. */
  function NatDigits(n: nat): (s: string)
    ensures |s| >= 1 && (n < 10 <==> |s| == 1)
    ensures forall i :: 0 <= i < |s| ==> '0' <= s[i] <= '9'
  {
    var digit := ['0' + (n % 10) as char];
    if n < 10 then digit else NatDigits(n / 10) + digit
  }

  /** Different numbers have different decimal forms. */
  lemma {:induction false} NatDigitsInjective(a: nat, b: nat)
    requires NatDigits(a) == NatDigits(b)
    ensures a == b
  {
    var s := NatDigits(a);
    assert s[|s| - 1] == '0' + (a % 10) as char == '0' + (b % 10) as char;
    if a >= 10 {
      assert NatDigits(a / 10) == s[..|s| - 1] == NatDigits(b / 10);
      NatDigitsInjective(a / 10, b / 10);
    }
  }

  /** `int.ToString()`: an optional minus sign, then the digits. */
  function DecimalString(n: int): (s: string)
    ensures |s| >= 1 && (s[0] == '-' || '0' <= s[0] <= '9')
    ensures n < 0 <==> s[0] == '-'
  {
    if n < 0 then "-" + NatDigits(-n) else NatDigits(n)
  }

  /** Different numbers print differently. */
  lemma DecimalStringInjective(a: int, b: int)
    requires DecimalString(a) == DecimalString(b)
    ensures a == b
  {
    if a < 0 {
      assert DecimalString(a)[1..] == NatDigits(-a) && DecimalString(b)[1..] == NatDigits(-b);
      NatDigitsInjective(-a, -b);
    } else {
      NatDigitsInjective(a, b);
    }
  }

  /** `Enum.ToString()` of a status: its name when it has one, its number otherwise. */
  function StatusName(v: int): (s: string)
    ensures IsNamedStatus(v) <==> s in {"NotStarted", "InProgress", "Completed"}
  {
    if v == NotStarted then "NotStarted"
    else if v == InProgress then "InProgress"
    else if v == Completed then "Completed"
    else DecimalString(v)
  }

  /** A status parser accepts at least the three names, each as its own value. The runtime's
      `Enum.TryParse` accepts more (numbers, comma-joined names), so the parser is a parameter. */
  predicate ParsesStatusNames(parse: string -> Option<int>)
  {
    && parse("NotStarted") == Some(NotStarted)
    && parse("InProgress") == Some(InProgress)
    && parse("Completed") == Some(Completed)
  }

  /** Under such a parser the name a status is shown with reads back as that status. */
  lemma ParseStatusNameRoundTrip(parse: string -> Option<int>, v: int)
    requires ParsesStatusNames(parse) && IsNamedStatus(v)
    ensures parse(StatusName(v)) == Some(v)
  {
  }

  /** The white-space characters of the ASCII range and the no-break space. */
  predicate IsWhiteSpace(c: char)
  {
    c == ' ' || c == '\t' || c == '\n' || c == '\r' || c == '\U{000B}' || c == '\U{000C}' || c == '\U{00A0}'
  }

  /** `[Required]` on a string: not empty and not only white space. */
  predicate Required(s: string)
  {
    exists i | 0 <= i < |s| :: !IsWhiteSpace(s[i])
  }

  /** The limits `TaskItem` declares: required title of at most 200 characters, description of
      at most 500. */
  predicate ValidTaskItem(t: TaskItem)
  {
    Required(t.title) && |t.title| <= 200 && |t.description| <= 500
  }

  /** The limits `TaskType` declares: required name of at most 100 characters, difficulty in
      1..6, description of at most 200. */
  predicate ValidTaskType(t: TaskType)
  {
    Required(t.name) && |t.name| <= 100 && 1 <= t.difficultyLevel <= 6 && |t.description| <= 200
  }

  /** Monday to Saturday in Turkish: the titles of generated tasks and the dashboard's day filter. */
  const DayNames: seq<string> := ["Pazartesi", "Salı", "Çarşamba", "Perşembe", "Cuma", "Cumartesi"]

  /** `GetDayName`: defined for the six working days only (an array index). */
  function DayName(dayIndex: nat): (name: string)
    requires dayIndex < 6
    ensures 4 <= |name| <= 9
  {
    DayNames[dayIndex]
  }

  /** The title of a generated task: "{type name} - {day name}". */
  function TaskTitle(typeName: string, dayIndex: nat): (title: string)
    requires dayIndex < 6
    ensures |title| <= |typeName| + 12
    ensures Required(title)
  {
    var title := typeName + " - " + DayName(dayIndex);
    assert title[|typeName| + 1] == '-';
    title
  }
}
