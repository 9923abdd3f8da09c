/**
 * The admin panel (src/Admin.jsx): the component state, the checkbox toggle with
 * its saved-lock, what loading a day's list does to the state in each view, the
 * present/absent pie, the save outcome, and the future-date test.
 */
module Admin {
  import opened Wrappers
  import opened DateKeys
  import opened Store
  import Server

  /** Which panel is open (src/Admin.jsx:12, 84-85): none, marking, or viewing by date. */
  datatype View = NoView | MarkView | DateView

  /** One segment of the pie chart (src/Admin.jsx:46-49). */
  datatype PieSlice = PieSlice(name: string, value: int, color: string)

  const AttendanceSaved := "Attendance saved"

  /** The panel's own class list (src/Admin.jsx:6), declared apart from the server's. */
  const Users: seq<string> := [
    "Aakash", "Adarsh", "Sagar", "Sahil", "Gaurav", "Kavya", "Sravya", "Lolasri",
    "Manisha", "Akshay", "Shashank", "Chaitanya", "Niharika"]

  /** `prev.filter(u => u !== name)` (src/Admin.jsx:58): every occurrence of `name`
      goes, every other entry stays, in order. */
  function Without(s: seq<string>, name: string): (r: seq<string>)
    ensures name !in r
    ensures forall other :: other != name ==> multiset(r)[other] == multiset(s)[other]
    ensures forall other :: other != name ==> (other in r <==> other in s)
    ensures name !in s ==> r == s
  {
    if s == [] then []
    else
      assert s == [s[0]] + s[1..];
      (if s[0] == name then [] else [s[0]]) + Without(s[1..], name)
  }

  /** The updater handleCheckboxChange hands to setSelectedUsers (src/Admin.jsx:56-59):
      a ticked name is removed, an unticked one is appended at the end. */
  function Toggle(prev: seq<string>, name: string): (r: seq<string>)
    ensures name in r <==> name !in prev
    ensures forall other :: other != name ==> (other in r <==> other in prev)
    ensures name !in prev ==> r == prev + [name]
    ensures name in prev ==> r == Without(prev, name)
    ensures name in prev ==> forall other :: other != name ==> multiset(r)[other] == multiset(prev)[other]
  {
    if name in prev then Without(prev, name) else prev + [name]
  }

  /** The filter works entry by entry: filtering a concatenation filters each part
      and keeps them in order. With the one-entry cases of `Without` this fixes the
      result, order included. */
  lemma {:induction false} WithoutConcat(s: seq<string>, t: seq<string>, name: string)
    ensures Without(s + t, name) == Without(s, name) + Without(t, name)
  {
    if s == [] {
      assert s + t == t;
    } else {
      assert (s + t)[0] == s[0] && (s + t)[1..] == s[1..] + t;
      WithoutConcat(s[1..], t, name);
    }
  }

  /** On one entry the filter drops `name` and keeps anything else. */
  lemma WithoutSingle(x: string, name: string)
    ensures Without([x], name) == if x == name then [] else [x]
  {
    assert [x][1..] == [];
  }

  lemma {:induction false} WithoutAppended(s: seq<string>, name: string)
    ensures Without(s + [name], name) == Without(s, name)
  {
    if s == [] {
      assert [] + [name] == [name];
      assert Without([name], name) == [] + Without([], name);
    } else {
      assert (s + [name])[1..] == s[1..] + [name];
      WithoutAppended(s[1..], name);
    }
  }

  /** Ticking a box twice: an unticked name comes back to exactly the list it
      started from; a ticked name ends up ticked again, moved to the end. */
  lemma ToggleTwice(prev: seq<string>, name: string)
    ensures name !in prev ==> Toggle(Toggle(prev, name), name) == prev
    ensures name in prev ==> Toggle(Toggle(prev, name), name) == Without(prev, name) + [name]
  {
    if name !in prev {
      WithoutAppended(prev, name);
    }
  }

  lemma {:induction false} WithoutKeepsDistinct(s: seq<string>, name: string)
    requires NoDuplicates(s)
    ensures NoDuplicates(Without(s, name))
  {
    if s != [] {
      assert NoDuplicates(s[1..]) by {
        forall i, j | 0 <= i < j < |s[1..]| ensures s[1..][i] != s[1..][j] {
          assert s[1..][i] == s[i + 1] && s[1..][j] == s[j + 1];
        }
      }
      WithoutKeepsDistinct(s[1..], name);
      var rest := Without(s[1..], name);
      if s[0] != name {
        assert s[0] !in s[1..];
        assert s[0] !in rest;
        var r := [s[0]] + rest;
        forall i, j | 0 <= i < j < |r| ensures r[i] != r[j] {
          assert r[j] == rest[j - 1];
          if i > 0 { assert r[i] == rest[i - 1]; }
        }
      }
    }
  }

  /** A selection without repeats stays without repeats, whatever is toggled. */
  lemma ToggleKeepsDistinct(prev: seq<string>, name: string)
    requires NoDuplicates(prev)
    ensures NoDuplicates(Toggle(prev, name))
  {
    if name in prev {
      WithoutKeepsDistinct(prev, name);
    }
  }

  /** The pie of the date view (src/Admin.jsx:44-49): Present is the number of names
      the server sent, Absent the rest of the thirteen students (src/Admin.jsx:6), so
      the two always add up to thirteen and Absent goes negative past thirteen names. */
  function PieSlices(list: seq<string>): (pie: seq<PieSlice>)
    ensures |pie| == 2 && pie[0].name == "Present" && pie[1].name == "Absent"
    ensures pie[0].value == |list| && pie[0].value + pie[1].value == |Users|
    ensures pie[1].value < 0 <==> |list| > |Users|
  {
    var absent := |Users| - |list|;
    [PieSlice("Present", |list|, "#4caf50"), PieSlice("Absent", absent, "#f44336")]
  }

  /** `isFutureDate` (src/Admin.jsx:78): the chosen date sorts after today's UTC date
      key, so a future date is neither today's key nor one that sorts before it. */
  function IsFutureDate(date: string, todayUtc: string): (future: bool)
    ensures future ==> date != todayUtc && !Less(date, todayUtc)
  {
    if Less(todayUtc, date) then LessAsymmetric(todayUtc, date); true else false
  }

  /** For canonical keys of four-digit years, the string test is the calendar's
      "later than". */
  lemma FutureDateIsLater(y: int, m: nat, d: nat, ty: int, tm: nat, td: nat)
    requires 1000 <= y <= 9999 && 1 <= m <= 12 && 1 <= d <= 31
    requires 1000 <= ty <= 9999 && 1 <= tm <= 12 && 1 <= td <= 31
    ensures IsFutureDate(TodayKey(y, m, d), TodayKey(ty, tm, td)) <==>
      ty < y || (ty == y && (tm < m || (tm == m && td < d)))
  {
    KeyOrderIsChronological(ty, tm, td, y, m, d);
  }

  /** The body handleSave posts (src/Admin.jsx:67): the selection and no date. The
      server compares the missing date with today's and turns every such request
      away (server.js:99-100), whoever sends it. */
  function SaveRequest(selected: seq<string>): (request: Server.MarkRequest)
    ensures request.users == selected
    ensures forall us, requester, today ::
      Server.MarkDecision(us, request.date, requester, today) == Server.NotToday
  {
    Server.MarkRequest(None, selected)
  }

  class AdminPanel {
    var date: string
    var selectedUsers: seq<string>
    var view: View
    var attendanceList: seq<string>
    var message: string
    var isAttendanceSaved: bool
    var pieData: seq<PieSlice>

    /** The initial state (src/Admin.jsx:10-16). */
    constructor ()
      ensures date == "" && selectedUsers == [] && view == NoView && attendanceList == []
      ensures message == "" && !isAttendanceSaved && pieData == []
    {
      date, selectedUsers, view, attendanceList := "", [], NoView, [];
      message, isAttendanceSaved, pieData := "", false, [];
    }

    /** `setDate`: the server's date arrives (src/Admin.jsx:22) or the date input
        changes (src/Admin.jsx:113). */
    method SetDate(d: string)
      modifies this`date
      ensures date == d
    {
      date := d;
    }

    /** What the date view lists (src/Admin.jsx:116-121): no names, only "Future date",
        when the chosen date sorts after today's UTC key; the loaded list otherwise. */
    function ListedNames(todayUtc: string): (names: Option<seq<string>>)
      reads this
      ensures names.None? <==> IsFutureDate(date, todayUtc)
      ensures names.Some? ==> names.value == attendanceList
    {
      if IsFutureDate(date, todayUtc) then None else Some(attendanceList)
    }

    /** The two buttons (src/Admin.jsx:84-85). */
    method SetView(v: View)
      modifies this`view
      ensures view == v
    {
      view := v;
    }

    /** loadAttendance (src/Admin.jsx:35-51), given the list the server returned. In
        the mark view the list becomes the selection and editing locks when it is not
        empty; otherwise it becomes the shown list and the pie. */
    method LoadAttendance(list: seq<string>)
      modifies this`selectedUsers, this`isAttendanceSaved, this`attendanceList, this`pieData
      ensures view == MarkView ==> selectedUsers == list && (isAttendanceSaved <==> |list| > 0)
      ensures view == MarkView ==> attendanceList == old(attendanceList) && pieData == old(pieData)
      ensures view != MarkView ==> attendanceList == list && pieData == PieSlices(list)
      ensures view != MarkView ==>
        selectedUsers == old(selectedUsers) && isAttendanceSaved == old(isAttendanceSaved)
    {
      if view == MarkView {
        selectedUsers := list;
        isAttendanceSaved := |list| > 0;
      } else {
        attendanceList := list;
        pieData := PieSlices(list);
      }
    }

    /** The effect on a change of view or date (src/Admin.jsx:25-33): nothing happens
        until a date is known and a view is open; then the day's list is loaded. */
    method OnViewOrDateChange(list: seq<string>)
      modifies this`selectedUsers, this`isAttendanceSaved, this`attendanceList, this`pieData
      ensures date == "" || view == NoView ==>
        selectedUsers == old(selectedUsers) && isAttendanceSaved == old(isAttendanceSaved) &&
        attendanceList == old(attendanceList) && pieData == old(pieData)
      ensures date != "" && view == MarkView ==>
        selectedUsers == list && (isAttendanceSaved <==> |list| > 0) &&
        attendanceList == old(attendanceList) && pieData == old(pieData)
      ensures date != "" && view == DateView ==>
        attendanceList == list && pieData == PieSlices(list) &&
        selectedUsers == old(selectedUsers) && isAttendanceSaved == old(isAttendanceSaved)
    {
      if date == "" {
        return;
      }
      if view == MarkView || view == DateView {
        LoadAttendance(list);
      }
    }

    /** handleCheckboxChange (src/Admin.jsx:53-61): once the day is saved the
        selection is locked; otherwise the name is toggled. */
    method HandleCheckboxChange(name: string)
      modifies this`selectedUsers
      ensures isAttendanceSaved ==> selectedUsers == old(selectedUsers)
      ensures !isAttendanceSaved ==> selectedUsers == Toggle(old(selectedUsers), name)
    {
      if isAttendanceSaved {
        return;
      }
      selectedUsers := Toggle(selectedUsers, name);
    }

    /** handleSave (src/Admin.jsx:63-76): posts SaveRequest(selectedUsers); the
        selection locks and the message is shown only when the reply says success. */
    method HandleSave(success: bool) returns (request: Server.MarkRequest)
      modifies this`isAttendanceSaved, this`message
      ensures request == SaveRequest(selectedUsers)
      ensures success ==> isAttendanceSaved && message == AttendanceSaved
      ensures !success ==> isAttendanceSaved == old(isAttendanceSaved) && message == old(message)
    {
      request := SaveRequest(selectedUsers);
      if success {
        isAttendanceSaved := true;
        message := AttendanceSaved;
      }
    }
  }
}
