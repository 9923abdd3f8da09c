/**
 * The attendance server (server.js): the start-up seeding of accounts, and the
 * handlers for login, reading a day's roster, marking today's attendance, a
 * student's history and the analytics summary. The two collections live in the
 * fields of a Backend object; the clock is an argument.
 */
module Server {
  import opened Wrappers
  import opened DateKeys
  import opened Store

  /** The accounts seedUsers upserts at start-up (server.js:35-51); only the admin
      entry sets the admin flag. */
  const SeedAccounts: seq<UserUpdate> := [
    UserUpdate("Aakash", "pX8kL2mN", None),
    UserUpdate("Adarsh", "qY9mN3oP", None),
    UserUpdate("Sagar", "rZ0nO4pQ", None),
    UserUpdate("Sahil", "sA1oP5qR", None),
    UserUpdate("Gaurav", "tB2pQ6rS", None),
    UserUpdate("Kavya", "uC3qR7sT", None),
    UserUpdate("Sravya", "vD4rS8tU", None),
    UserUpdate("Lolasri", "wE5sT9uV", None),
    UserUpdate("Manisha", "xF6tU0vW", None),
    UserUpdate("Akshay", "yG7uV1wX", None),
    UserUpdate("Shashank", "zH8vW2xY", None),
    UserUpdate("Chaitanya", "aI9wX3yZ", None),
    UserUpdate("Niharika", "bJ0xY4zA", None),
    UserUpdate("admin", "admin123", Some(true))
  ]

  /** The students the analytics count, in this order (server.js:153). */
  const StudentList: seq<string> := [
    "Aakash", "Adarsh", "Sagar", "Sahil", "Gaurav", "Kavya", "Sravya",
    "Lolasri", "Manisha", "Akshay", "Shashank", "Chaitanya", "Niharika"
  ]

  /** The fixed number of students a day's percentage is taken of (server.js:146). */
  const ClassSize: nat := 13

  /** The local calendar fields of the clock's reading (server.js:63-66). */
  datatype LocalDate = LocalDate(year: int, month: nat, day: nat)

  predicate ValidLocalDate(t: LocalDate) {
    1 <= t.month <= 12 && 1 <= t.day <= 31
  }

  const InvalidCredentials := "Invalid credentials"

  /** The body of a /api/login reply (server.js:75, 77). */
  datatype LoginReply = LoginOk(user: string, isAdmin: bool) | LoginFailed(message: string)

  /** The body of a POST /api/attendance request (server.js:96); `date` is missing
      when the client leaves it out. */
  datatype MarkRequest = MarkRequest(date: Option<string>, users: seq<string>)

  /** The outcome of a POST /api/attendance (server.js:100, 105, 113). */
  datatype MarkReply = Marked | NotToday | AdminRequired {

    /** The HTTP status: 403 for the missing admin right, 200 for the other two. */
    function Status(): (status: int)
      ensures status == 403 <==> this == AdminRequired
      ensures status == 200 <==> this != AdminRequired
    {
      if AdminRequired? then 403 else 200
    }

    /** The `message` of the reply body: none on success, a reason on each refusal. */
    function Message(): (message: Option<string>)
      ensures message.None? <==> this == Marked
      ensures this == NotToday ==> message == Some("Attendance can only be marked for today.")
      ensures this == AdminRequired ==> message == Some("Admin access required")
    {
      match this
      case Marked => None
      case NotToday => Some("Attendance can only be marked for today.")
      case AdminRequired => Some("Admin access required")
    }
  }

  /** The outcome of GET /api/attendance/user/:user (server.js:125, 129); a denial is
      sent with status 403, no dates and a total of zero. */
  datatype HistoryReply = History(totalDays: nat, dates: seq<string>) | AccessDenied

  datatype DailyPercentage = DailyPercentage(date: string, percentage: nat)
  datatype StudentTotal = StudentTotal(name: string, total: nat)
  datatype MonthTotal = MonthTotal(month: string, total: nat)

  /** The body of GET /api/analytics (server.js:170). */
  datatype AnalyticsReply = AnalyticsReply(
    dailyPercentages: seq<DailyPercentage>,
    studentTotals: seq<StudentTotal>,
    monthlySummary: seq<MonthTotal>)

  /** The guards of POST /api/attendance, in the order the handler tries them
      (server.js:99-106): first the date must be today's, then the requester must be
      an admin account. */
  function MarkDecision(us: seq<UserDoc>, date: Option<string>, requester: string, today: string): (r: MarkReply)
    ensures r == NotToday <==> date != Some(today)
    ensures r == AdminRequired <==> date == Some(today) && !IsAdmin(us, requester)
    ensures UniqueUsernames(us) ==>
      (r == Marked <==>
        date == Some(today) && exists i :: 0 <= i < |us| && us[i].username == requester && us[i].isAdmin)
  {
    if date != Some(today) then NotToday
    else if !IsAdmin(us, requester) then AdminRequired
    else Marked
  }

  /** Who may read a student's history (server.js:123-124): an existing account that
      is an admin or is the student. */
  function HistoryAccess(us: seq<UserDoc>, user: string, requester: string): (granted: bool)
    ensures UniqueUsernames(us) ==>
      (granted <==> exists i :: 0 <= i < |us| && us[i].username == requester && (us[i].isAdmin || requester == user))
  {
    match FindUser(us, requester)
    case None => false
    case Some(account) => account.isAdmin || requester == user
  }

  /** `Math.round((present / total) * 100)` with total 13 (server.js:146-147): the
      whole percentage nearest to present/13, in integer arithmetic. present/13 is
      never halfway between two whole percentages, so rounding halves up is exact. */
  function Percentage(present: nat): (r: nat)
    ensures 2 * ClassSize * r - ClassSize <= 200 * present < 2 * ClassSize * r + ClassSize
  {
    (200 * present + ClassSize) / (2 * ClassSize)
  }

  /** A larger class count never lowers the percentage; a full class is 100, and
      nothing caps it: fourteen names give 108. */
  lemma PercentageFacts(p: nat, q: nat)
    requires p <= q
    ensures Percentage(p) <= Percentage(q)
    ensures Percentage(ClassSize) == 100 && Percentage(2) == 15 && Percentage(14) == 108
    ensures p <= ClassSize ==> Percentage(p) <= 100
  {
  }

  /** The names the updates upsert. */
  function UpdateNames(updates: seq<UserUpdate>): set<string> {
    set i | 0 <= i < |updates| :: updates[i].username
  }

  /** The users collection after upserting each update of `updates` in turn: the
      accounts it held plus exactly the names the updates give. */
  function SeedAll(us: seq<UserDoc>, updates: seq<UserUpdate>): (r: seq<UserDoc>)
    ensures Usernames(r) == Usernames(us) + UpdateNames(updates)
    decreases |updates|
  {
    if updates == [] then us
    else
      var n := |updates| - 1;
      var prior := SeedAll(us, updates[..n]);
      UpsertUserKeepsUnique(prior, updates[n]);
      UpdateNamesLast(updates);
      UpsertUser(prior, updates[n])
  }

  /** The names of a list are those of all but its last entry, plus the last one's. */
  lemma UpdateNamesLast(updates: seq<UserUpdate>)
    requires updates != []
    ensures UpdateNames(updates) ==
      UpdateNames(updates[..|updates| - 1]) + {updates[|updates| - 1].username}
  {
    var n := |updates| - 1;
    assert forall i :: 0 <= i < n ==> updates[..n][i] == updates[i];
  }

  predicate DistinctNames(updates: seq<UserUpdate>) {
    forall i, j :: 0 <= i < j < |updates| ==> updates[i].username != updates[j].username
  }

  /** Seeding keeps usernames unique. */
  lemma {:induction false} SeedAllKeepsUnique(us: seq<UserDoc>, updates: seq<UserUpdate>)
    requires UniqueUsernames(us)
    ensures UniqueUsernames(SeedAll(us, updates))
    decreases |updates|
  {
    if updates != [] {
      var n := |updates| - 1;
      SeedAllKeepsUnique(us, updates[..n]);
      UpsertUserKeepsUnique(SeedAll(us, updates[..n]), updates[n]);
    }
  }

  /** Seeding leaves every account whose name is not listed as it was. */
  lemma {:induction false} SeedAllKeepsOthers(us: seq<UserDoc>, updates: seq<UserUpdate>, other: string)
    requires forall j :: 0 <= j < |updates| ==> updates[j].username != other
    ensures FindUser(SeedAll(us, updates), other) == FindUser(us, other)
    decreases |updates|
  {
    if updates != [] {
      SeedAllKeepsOthers(us, updates[..|updates| - 1], other);
    }
  }

  /** After seeding a list of distinct names, each listed account holds what its
      entry says, its admin flag kept when the entry gives none. */
  lemma {:induction false} SeedAllListed(us: seq<UserDoc>, updates: seq<UserUpdate>, k: nat)
    requires DistinctNames(updates) && k < |updates|
    ensures FindUser(SeedAll(us, updates), updates[k].username) ==
      Some(Upserted(FindUser(us, updates[k].username), updates[k]))
    decreases |updates|
  {
    var n := |updates| - 1;
    var prefix, last := updates[..n], updates[n];
    assert updates == prefix + [last];
    assert SeedAll(us, updates) == UpsertUser(SeedAll(us, prefix), last);
    DistinctPrefix(prefix, last);
    if k < n {
      assert prefix[k] == updates[k];
      SeedAllListed(us, prefix, k);
    } else {
      SeedAllKeepsOthers(us, prefix, last.username);
    }
  }

  /** Distinct names stay distinct without their last entry, and none of the others
      is the last one's. */
  lemma DistinctPrefix(prefix: seq<UserUpdate>, last: UserUpdate)
    requires DistinctNames(prefix + [last])
    ensures DistinctNames(prefix)
    ensures forall j :: 0 <= j < |prefix| ==> prefix[j].username != last.username
  {
    var all := prefix + [last];
    assert forall j :: 0 <= j < |prefix| ==> all[j] == prefix[j];
    assert all[|prefix|] == last;
  }

  /** The seed list names fourteen distinct accounts; seeding leaves `admin` an
      admin with password `admin123`, whatever the collection held before. */
  lemma SeededAdmin(us: seq<UserDoc>)
    ensures DistinctNames(SeedAccounts)
    ensures FindUser(SeedAll(us, SeedAccounts), "admin") == Some(UserDoc("admin", "admin123", true))
  {
    SeedAccountsDistinct();
    var admin := SeedAccounts[13];
    assert admin == UserUpdate("admin", "admin123", Some(true));
    SeedAllListed(us, SeedAccounts, 13);
  }

  /** No two seed entries share a name. */
  lemma SeedAccountsDistinct()
    ensures DistinctNames(SeedAccounts)
  {
    assert DistinctNames(SeedAccounts);
  }

  /** With one account per name, a login succeeds exactly when the named account
      exists and its password matches; an unknown name and a wrong password fail
      alike. */
  lemma LoginMatchesAccount(us: seq<UserDoc>, name: string, password: string)
    requires UniqueUsernames(us)
    ensures FindCredentials(us, name, password).Some? <==>
      FindUser(us, name).Some? && FindUser(us, name).value.password == password
  {
    var byName := FindUser(us, name);
    var byBoth := FindCredentials(us, name, password);
    if byBoth.Some? {
      var i :| 0 <= i < |us| && us[i] == byBoth.value;
    }
  }

  class Backend {
    var users: seq<UserDoc>
    var attendance: seq<AttendanceDoc>

    /** The unique indexes on username and on date (server.js:21, 27). */
    ghost predicate Valid()
      reads this
    {
      UniqueUsernames(users) && UniqueDates(attendance)
    }

    constructor ()
      ensures Valid() && users == [] && attendance == []
    {
      users, attendance := [], [];
    }

    /** seedUsers (server.js:34-59): upsert each account by name, in order. */
    method SeedUsers(updates: seq<UserUpdate>)
      requires Valid()
      modifies this
      ensures Valid() && attendance == old(attendance)
      ensures users == SeedAll(old(users), updates)
    {
      for k := 0 to |updates|
        invariant Valid() && attendance == old(attendance)
        invariant users == SeedAll(old(users), updates[..k])
      {
        UpsertUserKeepsUnique(users, updates[k]);
        users := UpsertUser(users, updates[k]);
        assert updates[..k + 1][..k] == updates[..k];
      }
      assert updates[..|updates|] == updates;
    }

    /** POST /api/login (server.js:70-82). */
    method Login(username: string, password: string) returns (r: LoginReply)
      requires Valid()
      ensures r.LoginOk? <==>
        exists i :: 0 <= i < |users| && users[i].username == username && users[i].password == password
      ensures r.LoginOk? ==> r.user == username
      ensures r.LoginOk? ==>
        forall i :: 0 <= i < |users| && users[i].username == username ==> r.isAdmin == users[i].isAdmin
      ensures r.LoginFailed? ==> r == LoginFailed(InvalidCredentials)
    {
      var found := FindCredentials(users, username, password);
      if found.Some? {
        var j :| 0 <= j < |users| && users[j] == found.value;
        r := LoginOk(username, found.value.isAdmin);
      } else {
        r := LoginFailed(InvalidCredentials);
      }
    }

    /** GET /api/attendance/:date (server.js:84-93). */
    method GetRoster(date: string) returns (list: seq<string>)
      requires Valid()
      ensures forall i :: 0 <= i < |attendance| && attendance[i].date == date ==> list == attendance[i].users
      ensures date !in Dates(attendance) ==> list == []
    {
      list := Roster(attendance, date);
    }

    /** POST /api/attendance (server.js:95-117), with the clock reading `now`. */
    method MarkAttendance(request: MarkRequest, requester: string, now: LocalDate) returns (r: MarkReply)
      requires Valid() && ValidLocalDate(now)
      modifies this
      ensures Valid() && users == old(users)
      ensures r == MarkDecision(users, request.date, requester, TodayKey(now.year, now.month, now.day))
      ensures r == Marked ==> attendance == UpsertRecord(old(attendance), request.date.value, request.users)
      ensures r != Marked ==> attendance == old(attendance)
    {
      var today := TodayKey(now.year, now.month, now.day);
      if request.date != Some(today) {
        return NotToday;
      }
      var account := FindUser(users, requester);
      if account.None? || !account.value.isAdmin {
        return AdminRequired;
      }
      UpsertRecordKeepsUnique(attendance, request.date.value, request.users);
      attendance := UpsertRecord(attendance, request.date.value, request.users);
      r := Marked;
    }

    /** GET /api/attendance/user/:user (server.js:119-133). */
    method UserHistory(user: string, requester: string) returns (r: HistoryReply)
      requires Valid()
      ensures r == AccessDenied <==> !HistoryAccess(users, user, requester)
      ensures r.History? ==> r.totalDays == |r.dates| == |DaysPresent(attendance, user)|
      ensures r.History? ==> NoDuplicates(r.dates) && forall d :: d in r.dates <==> user in Roster(attendance, d)
    {
      if !HistoryAccess(users, user, requester) {
        return AccessDenied;
      }
      var records := RecordsContaining(attendance, user);
      HistoryMatchesRosters(attendance, user);
      r := History(|records|, DatesOf(records));
    }

    /** GET /api/analytics (server.js:135-175). `dayKey(i)` is the date key of the
        day `i` days before today and `monthKey(i)` the month key of the month `i`
        months before this one, as the clock gives them (server.js:141-143, 162-164).
        Each month's total is the number of stored dates that start with its key. */
    method Analytics(dayKey: nat -> string, monthKey: nat -> string) returns (a: AnalyticsReply)
      requires Valid()
      ensures |a.dailyPercentages| == 30
      ensures forall j :: 0 <= j < 30 ==>
        a.dailyPercentages[j] == DailyPercentage(dayKey(29 - j), Percentage(|Roster(attendance, dayKey(29 - j))|))
      ensures |a.studentTotals| == |StudentList|
      ensures forall k :: 0 <= k < |StudentList| ==>
        a.studentTotals[k] == StudentTotal(StudentList[k], |DaysPresent(attendance, StudentList[k])|)
      ensures |a.monthlySummary| == 12
      ensures forall j :: 0 <= j < 12 ==>
        a.monthlySummary[j] == MonthTotal(monthKey(11 - j), |DaysInMonth(attendance, monthKey(11 - j))|)
    {
      var daily := DailyPercentages(dayKey);
      var totals := StudentTotals();
      var monthly := MonthlySummary(monthKey);
      a := AnalyticsReply(daily, totals, monthly);
    }

    /** The last 30 days, oldest first, each with the percentage of the class on
        its list (server.js:138-149). */
    method DailyPercentages(dayKey: nat -> string) returns (daily: seq<DailyPercentage>)
      ensures |daily| == 30
      ensures forall j :: 0 <= j < 30 ==>
        daily[j] == DailyPercentage(dayKey(29 - j), Percentage(|Roster(attendance, dayKey(29 - j))|))
    {
      daily := [];
      var i: int := 29;
      while i >= 0
        invariant -1 <= i <= 29 && |daily| == 29 - i
        invariant forall j :: 0 <= j < |daily| ==>
          daily[j] == DailyPercentage(dayKey(29 - j), Percentage(|Roster(attendance, dayKey(29 - j))|))
      {
        var date := dayKey(i);
        var present := |Roster(attendance, date)|;
        daily := daily + [DailyPercentage(date, Percentage(present))];
        i := i - 1;
      }
    }

    /** One total per student of the class list, in its order: the number of
        stored days whose list holds the name (server.js:151-157). */
    method StudentTotals() returns (totals: seq<StudentTotal>)
      requires Valid()
      ensures |totals| == |StudentList|
      ensures forall k :: 0 <= k < |StudentList| ==>
        totals[k] == StudentTotal(StudentList[k], |DaysPresent(attendance, StudentList[k])|)
    {
      totals := [];
      for k := 0 to |StudentList|
        invariant |totals| == k
        invariant forall m :: 0 <= m < k ==>
          totals[m] == StudentTotal(StudentList[m], |DaysPresent(attendance, StudentList[m])|)
      {
        var records := RecordsContaining(attendance, StudentList[k]);
        HistoryMatchesRosters(attendance, StudentList[k]);
        totals := totals + [StudentTotal(StudentList[k], |records|)];
      }
    }

    /** The last 12 months, oldest first, each with the number of stored dates that
        start with its key (server.js:159-168). */
    method MonthlySummary(monthKey: nat -> string) returns (monthly: seq<MonthTotal>)
      requires Valid()
      ensures |monthly| == 12
      ensures forall j :: 0 <= j < 12 ==>
        monthly[j] == MonthTotal(monthKey(11 - j), |DaysInMonth(attendance, monthKey(11 - j))|)
    {
      monthly := [];
      var i: int := 11;
      while i >= 0
        invariant -1 <= i <= 11 && |monthly| == 11 - i
        invariant forall j :: 0 <= j < |monthly| ==>
          monthly[j] == MonthTotal(monthKey(11 - j), |DaysInMonth(attendance, monthKey(11 - j))|)
      {
        var month := monthKey(i);
        var records := RecordsInMonth(attendance, month);
        MonthCountMatchesDates(attendance, month);
        monthly := monthly + [MonthTotal(month, |records|)];
        i := i - 1;
      }
    }
  }
}
