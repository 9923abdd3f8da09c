/**
 * The two collections the server keeps, held in memory. A collection is the
 * sequence of its documents in natural order; `findOne` returns the first
 * document that matches, `find` every match in that order, and
 * `findOneAndUpdate(filter, update, {upsert: true})` sets the update's fields on
 * the first match or appends a new document when nothing matches. The unique
 * indexes on `username` (server.js:27) and on `date` (server.js:21) become the
 * invariants UniqueUsernames and UniqueDates, which every upsert preserves.
 */
module Store {
  import opened Wrappers
  import opened DateKeys

  /** A document of the `users` collection (server.js:26-31). */
  datatype UserDoc = UserDoc(username: string, password: string, isAdmin: bool)

  /** A document of the `attendance` collection (server.js:20-23). */
  datatype AttendanceDoc = AttendanceDoc(date: string, users: seq<string>)

  /** An upsert of a user by name; `isAdmin` is absent when the update does not set it. */
  datatype UserUpdate = UserUpdate(username: string, password: string, isAdmin: Option<bool>)

  function Usernames(us: seq<UserDoc>): set<string> {
    set i | 0 <= i < |us| :: us[i].username
  }

  predicate UniqueUsernames(us: seq<UserDoc>) {
    forall i, j :: 0 <= i < j < |us| ==> us[i].username != us[j].username
  }

  function Dates(rs: seq<AttendanceDoc>): set<string> {
    set i | 0 <= i < |rs| :: rs[i].date
  }

  predicate UniqueDates(rs: seq<AttendanceDoc>) {
    forall i, j :: 0 <= i < j < |rs| ==> rs[i].date != rs[j].date
  }

  lemma UsernamesCons(u: UserDoc, us: seq<UserDoc>)
    ensures Usernames([u] + us) == {u.username} + Usernames(us)
  {
    var all := [u] + us;
    forall n | n in Usernames(all) ensures n in {u.username} + Usernames(us) {
      var i :| 0 <= i < |all| && all[i].username == n;
      if i > 0 { assert us[i - 1] == all[i]; }
    }
    forall n | n in Usernames(us) ensures n in Usernames(all) {
      var i :| 0 <= i < |us| && us[i].username == n;
      assert all[i + 1] == us[i];
    }
    assert all[0] == u;
  }

  lemma DatesCons(r: AttendanceDoc, rs: seq<AttendanceDoc>)
    ensures Dates([r] + rs) == {r.date} + Dates(rs)
  {
    var all := [r] + rs;
    forall d | d in Dates(all) ensures d in {r.date} + Dates(rs) {
      var i :| 0 <= i < |all| && all[i].date == d;
      if i > 0 { assert rs[i - 1] == all[i]; }
    }
    forall d | d in Dates(rs) ensures d in Dates(all) {
      var i :| 0 <= i < |rs| && rs[i].date == d;
      assert all[i + 1] == rs[i];
    }
    assert all[0] == r;
  }

  predicate NoDuplicates(s: seq<string>) {
    forall i, j :: 0 <= i < j < |s| ==> s[i] != s[j]
  }

  /** `User.findOne({ username: name })`. */
  function FindUser(us: seq<UserDoc>, name: string): (r: Option<UserDoc>)
    ensures r.Some? <==> name in Usernames(us)
    ensures r.Some? ==> r.value.username == name && r.value in us
    ensures r.Some? && UniqueUsernames(us) ==>
      forall i :: 0 <= i < |us| && us[i].username == name ==> us[i] == r.value
  {
    if us == [] then None
    else if us[0].username == name then Some(us[0])
    else
      UsernamesCons(us[0], us[1..]);
      FindUser(us[1..], name)
  }

  /** `User.findOne({ username: name, password: password })`. */
  function FindCredentials(us: seq<UserDoc>, name: string, password: string): (r: Option<UserDoc>)
    ensures r.Some? <==> exists i :: 0 <= i < |us| && us[i].username == name && us[i].password == password
    ensures r.Some? ==> r.value.username == name && r.value.password == password && r.value in us
  {
    if us == [] then None
    else if us[0].username == name && us[0].password == password then Some(us[0])
    else
      var r := FindCredentials(us[1..], name, password);
      assert r.Some? ==> exists i :: 0 <= i < |us| && us[i] == r.value;
      assert (exists i :: 0 <= i < |us| && us[i].username == name && us[i].password == password) ==>
        exists j :: 0 <= j < |us[1..]| && us[1..][j].username == name && us[1..][j].password == password;
      r
  }

  /** True when `name` has an account whose admin flag is set. */
  function IsAdmin(us: seq<UserDoc>, name: string): (admin: bool)
    ensures admin ==> exists i :: 0 <= i < |us| && us[i].username == name && us[i].isAdmin
    ensures UniqueUsernames(us) ==>
      (admin <==> exists i :: 0 <= i < |us| && us[i].username == name && us[i].isAdmin)
  {
    var found := FindUser(us, name);
    found.Some? && found.value.isAdmin
  }

  /** The document an upsert of `u` leaves behind, given the document it matched: the
      update's `$set` of name and password, the admin flag from the update when it
      sets one, else the matched account's, else the schema default `false`. */
  function Upserted(matched: Option<UserDoc>, u: UserUpdate): (doc: UserDoc)
    ensures doc.username == u.username && doc.password == u.password
    ensures u.isAdmin.Some? ==> doc.isAdmin == u.isAdmin.value
    ensures u.isAdmin.None? && matched.Some? ==> doc.isAdmin == matched.value.isAdmin
    ensures u.isAdmin.None? && matched.None? ==> !doc.isAdmin
  {
    UserDoc(u.username, u.password,
      if u.isAdmin.Some? then u.isAdmin.value
      else if matched.Some? then matched.value.isAdmin
      else false)
  }

  /** `User.findOneAndUpdate({ username }, u, { upsert: true })` (server.js:54): the
      password is overwritten, the admin flag only when `u` carries one, and a new
      account takes the schema default `false` (server.js:29). No other account changes. */
  function UpsertUser(us: seq<UserDoc>, u: UserUpdate): (r: seq<UserDoc>)
    ensures FindUser(r, u.username) == Some(Upserted(FindUser(us, u.username), u))
    ensures forall name :: name != u.username ==> FindUser(r, name) == FindUser(us, name)
  {
    if us == [] then
      [Upserted(None, u)]
    else if us[0].username == u.username then
      [Upserted(Some(us[0]), u)] + us[1..]
    else
      var r := [us[0]] + UpsertUser(us[1..], u);
      assert r[1..] == UpsertUser(us[1..], u);
      r
  }

  /** An upsert adds at most its own name and keeps usernames unique. */
  lemma {:induction false} UpsertUserKeepsUnique(us: seq<UserDoc>, u: UserUpdate)
    ensures Usernames(UpsertUser(us, u)) == Usernames(us) + {u.username}
    ensures UniqueUsernames(us) ==> UniqueUsernames(UpsertUser(us, u))
  {
    var r := UpsertUser(us, u);
    if us == [] {
      UsernamesCons(r[0], []);
      assert r == [r[0]] + [];
    } else {
      assert us == [us[0]] + us[1..];
      UsernamesCons(us[0], us[1..]);
      UniqueCons(us[0], us[1..]);
      if us[0].username == u.username {
        UsernamesCons(r[0], us[1..]);
        UniqueCons(r[0], us[1..]);
      } else {
        var rest := UpsertUser(us[1..], u);
        UpsertUserKeepsUnique(us[1..], u);
        UsernamesCons(us[0], rest);
        UniqueCons(us[0], rest);
      }
    }
  }

  lemma UniqueCons(u: UserDoc, us: seq<UserDoc>)
    ensures UniqueUsernames([u] + us) <==> u.username !in Usernames(us) && UniqueUsernames(us)
  {
    var all := [u] + us;
    if UniqueUsernames(all) {
      forall i, j | 0 <= i < j < |us| ensures us[i].username != us[j].username {
        assert all[i + 1] == us[i] && all[j + 1] == us[j];
      }
      forall i | 0 <= i < |us| ensures us[i].username != u.username {
        assert all[0] == u && all[i + 1] == us[i];
      }
    }
    if u.username !in Usernames(us) && UniqueUsernames(us) {
      forall i, j | 0 <= i < j < |all| ensures all[i].username != all[j].username {
        assert all[j] == us[j - 1] && us[j - 1].username in Usernames(us);
        if i > 0 { assert all[i] == us[i - 1]; } else { assert all[i] == u; }
      }
    }
  }

  /** `Attendance.findOne({ date })`. */
  function FindRecord(rs: seq<AttendanceDoc>, date: string): (r: Option<AttendanceDoc>)
    ensures r.Some? <==> date in Dates(rs)
    ensures r.Some? ==> r.value.date == date && r.value in rs
    ensures r.Some? && UniqueDates(rs) ==>
      forall i :: 0 <= i < |rs| && rs[i].date == date ==> rs[i] == r.value
  {
    if rs == [] then None
    else if rs[0].date == date then Some(rs[0])
    else
      DatesCons(rs[0], rs[1..]);
      FindRecord(rs[1..], date)
  }

  /** The list recorded for `date`, or the empty list when there is no record
      (server.js:87-88). */
  function Roster(rs: seq<AttendanceDoc>, date: string): (list: seq<string>)
    ensures date !in Dates(rs) ==> list == []
    ensures date in Dates(rs) ==> exists i :: 0 <= i < |rs| && rs[i].date == date && rs[i].users == list
    ensures UniqueDates(rs) ==> forall i :: 0 <= i < |rs| && rs[i].date == date ==> rs[i].users == list
  {
    match FindRecord(rs, date)
    case Some(doc) => doc.users
    case None => []
  }

  /** `Attendance.findOneAndUpdate({ date }, { users }, { upsert: true })`
      (server.js:107-111): the list recorded for `date` becomes `users`, replacing
      what was there, and the record of every other date is left as it was. */
  function UpsertRecord(rs: seq<AttendanceDoc>, date: string, users: seq<string>): (r: seq<AttendanceDoc>)
    ensures FindRecord(r, date) == Some(AttendanceDoc(date, users))
    ensures forall d :: d != date ==> FindRecord(r, d) == FindRecord(rs, d)
  {
    if rs == [] then
      [AttendanceDoc(date, users)]
    else if rs[0].date == date then
      [AttendanceDoc(date, users)] + rs[1..]
    else
      var r := [rs[0]] + UpsertRecord(rs[1..], date, users);
      assert r[1..] == UpsertRecord(rs[1..], date, users);
      r
  }

  /** An upsert adds a record only for a new date, and keeps one record per date. */
  lemma {:induction false} UpsertRecordKeepsUnique(rs: seq<AttendanceDoc>, date: string, users: seq<string>)
    ensures Dates(UpsertRecord(rs, date, users)) == Dates(rs) + {date}
    ensures UniqueDates(rs) ==> UniqueDates(UpsertRecord(rs, date, users))
  {
    var r := UpsertRecord(rs, date, users);
    if rs == [] {
      DatesCons(r[0], []);
      assert r == [r[0]] + [];
    } else {
      assert rs == [rs[0]] + rs[1..];
      DatesCons(rs[0], rs[1..]);
      UniqueDatesCons(rs[0], rs[1..]);
      if rs[0].date == date {
        DatesCons(r[0], rs[1..]);
        UniqueDatesCons(r[0], rs[1..]);
      } else {
        var rest := UpsertRecord(rs[1..], date, users);
        UpsertRecordKeepsUnique(rs[1..], date, users);
        DatesCons(rs[0], rest);
        UniqueDatesCons(rs[0], rest);
      }
    }
  }

  lemma UniqueDatesCons(r: AttendanceDoc, rs: seq<AttendanceDoc>)
    ensures UniqueDates([r] + rs) <==> r.date !in Dates(rs) && UniqueDates(rs)
  {
    var all := [r] + rs;
    if UniqueDates(all) {
      forall i, j | 0 <= i < j < |rs| ensures rs[i].date != rs[j].date {
        assert all[i + 1] == rs[i] && all[j + 1] == rs[j];
      }
      forall i | 0 <= i < |rs| ensures rs[i].date != r.date {
        assert all[0] == r && all[i + 1] == rs[i];
      }
    }
    if r.date !in Dates(rs) && UniqueDates(rs) {
      forall i, j | 0 <= i < j < |all| ensures all[i].date != all[j].date {
        assert all[j] == rs[j - 1] && rs[j - 1].date in Dates(rs);
        if i > 0 { assert all[i] == rs[i - 1]; } else { assert all[i] == r; }
      }
    }
  }

  /** A second upsert of the same date replaces the first one's list outright:
      writes overwrite, they do not merge, and repeating a write changes nothing. */
  lemma {:induction false} UpsertRecordOverwrites(rs: seq<AttendanceDoc>, date: string, first: seq<string>, second: seq<string>)
    ensures UpsertRecord(UpsertRecord(rs, date, first), date, second) == UpsertRecord(rs, date, second)
  {
    if rs != [] && rs[0].date != date {
      UpsertRecordOverwrites(rs[1..], date, first, second);
      var once := UpsertRecord(rs, date, first);
      assert once[0] == rs[0] && once[1..] == UpsertRecord(rs[1..], date, first);
    }
  }

  /** `Attendance.find({ users: name })` (server.js:127, 155): the records whose list
      holds `name`, in collection order. */
  function RecordsContaining(rs: seq<AttendanceDoc>, name: string): (r: seq<AttendanceDoc>)
    ensures |r| <= |rs|
    ensures forall doc :: doc in r <==> doc in rs && name in doc.users
    ensures UniqueDates(rs) ==> UniqueDates(r)
  {
    if rs == [] then []
    else
      var rest := RecordsContaining(rs[1..], name);
      assert forall doc :: doc in rs <==> doc == rs[0] || doc in rs[1..];
      if name in rs[0].users then
        FilterStepKeepsUnique(rs, rest);
        [rs[0]] + rest
      else
        rest
  }

  /** `Attendance.find({ date: { $regex: `^${month}` } })` (server.js:165): the records
      whose date starts with `month`, in collection order. */
  function RecordsInMonth(rs: seq<AttendanceDoc>, month: string): (r: seq<AttendanceDoc>)
    ensures |r| <= |rs|
    ensures forall doc :: doc in r <==> doc in rs && IsPrefix(month, doc.date)
    ensures UniqueDates(rs) ==> UniqueDates(r)
  {
    if rs == [] then []
    else
      var rest := RecordsInMonth(rs[1..], month);
      assert forall doc :: doc in rs <==> doc == rs[0] || doc in rs[1..];
      if IsPrefix(month, rs[0].date) then
        FilterStepKeepsUnique(rs, rest);
        [rs[0]] + rest
      else
        rest
  }

  /** The dates of the collection that start with the month key `month`. */
  function DaysInMonth(rs: seq<AttendanceDoc>, month: string): set<string> {
    set d | d in Dates(rs) && IsPrefix(month, d)
  }

  /** With one record per date, the month query returns one record for each date
      that starts with the month key, so its length is the number of such dates. */
  lemma MonthCountMatchesDates(rs: seq<AttendanceDoc>, month: string)
    requires UniqueDates(rs)
    ensures |RecordsInMonth(rs, month)| == |DaysInMonth(rs, month)|
  {
    var hits := RecordsInMonth(rs, month);
    var ds := DatesOf(hits);
    assert NoDuplicates(ds);
    forall d ensures d in ds <==> d in DaysInMonth(rs, month) {
      if d in ds {
        var k :| 0 <= k < |ds| && ds[k] == d;
        assert hits[k] in hits;
        var i :| 0 <= i < |rs| && rs[i] == hits[k];
        assert d in Dates(rs);
      }
      if d in DaysInMonth(rs, month) {
        var i :| 0 <= i < |rs| && rs[i].date == d;
        assert rs[i] in hits;
        var k :| 0 <= k < |hits| && hits[k] == rs[i];
        assert ds[k] == d;
      }
    }
    assert DaysInMonth(rs, month) == set d | d in ds;
    DistinctCardinality(ds);
  }

  /** Keeping the head of a collection in front of records drawn from its tail keeps
      dates unique. */
  lemma FilterStepKeepsUnique(rs: seq<AttendanceDoc>, rest: seq<AttendanceDoc>)
    requires rs != [] && forall doc :: doc in rest ==> doc in rs[1..]
    ensures UniqueDates(rs) && UniqueDates(rest) ==> UniqueDates([rs[0]] + rest)
  {
    assert rs == [rs[0]] + rs[1..];
    UniqueDatesCons(rs[0], rs[1..]);
    UniqueDatesCons(rs[0], rest);
    forall d | d in Dates(rest) ensures d in Dates(rs[1..]) {
      var j :| 0 <= j < |rest| && rest[j].date == d;
      assert rest[j] in rs[1..];
      var k :| 0 <= k < |rs[1..]| && rs[1..][k] == rest[j];
    }
  }

  /** `records.map(record => record.date)` (server.js:128). */
  function DatesOf(rs: seq<AttendanceDoc>): (ds: seq<string>)
    ensures |ds| == |rs| && forall i :: 0 <= i < |rs| ==> ds[i] == rs[i].date
  {
    seq(|rs|, i requires 0 <= i < |rs| => rs[i].date)
  }

  /** The dates whose recorded list holds `name`. */
  function DaysPresent(rs: seq<AttendanceDoc>, name: string): set<string> {
    set d | d in Dates(rs) && name in Roster(rs, d)
  }

  /** With one record per date, the dates of the records holding `name` are the
      dates on whose roster `name` appears, each once; so their number is the
      number of such dates. */
  lemma HistoryMatchesRosters(rs: seq<AttendanceDoc>, name: string)
    requires UniqueDates(rs)
    ensures var ds := DatesOf(RecordsContaining(rs, name));
      && NoDuplicates(ds)
      && (forall d :: d in ds <==> name in Roster(rs, d))
      && |ds| == |DaysPresent(rs, name)|
  {
    var hits := RecordsContaining(rs, name);
    var ds := DatesOf(hits);
    forall d ensures d in ds <==> name in Roster(rs, d) {
      if d in ds {
        var k :| 0 <= k < |ds| && ds[k] == d;
        assert hits[k] in hits;
        var i :| 0 <= i < |rs| && rs[i] == hits[k];
        assert FindRecord(rs, d).Some?;
      }
      if name in Roster(rs, d) {
        var doc := FindRecord(rs, d).value;
        assert doc in hits;
        var k :| 0 <= k < |hits| && hits[k] == doc;
        assert ds[k] == d;
      }
    }
    assert DaysPresent(rs, name) == set d | d in ds by {
      forall d | d in ds ensures d in Dates(rs) {
        assert FindRecord(rs, d).Some?;
      }
    }
    DistinctCardinality(ds);
  }

  /** A sequence without repeats has as many distinct elements as positions. */
  lemma {:induction false} DistinctCardinality(s: seq<string>)
    requires NoDuplicates(s)
    ensures |set x | x in s| == |s|
  {
    if s != [] {
      DistinctCardinality(s[1..]);
      assert (set x | x in s) == {s[0]} + (set x | x in s[1..]);
      assert s[0] !in s[1..];
    }
  }
}
