/**
 * The leaderboard (src/Leaderboard.jsx): the outcome of fetching the analytics,
 * the in-place sort of the student totals by total, highest first, and the
 * ranked table the component shows once loading is over.
 */
module Leaderboard {
  import opened Wrappers
  import Server

  const LoadFailed := "Failed to load leaderboard."

  /** Totals ordered from the highest to the lowest. */
  predicate SortedByTotalDesc(s: seq<Server.StudentTotal>) {
    forall i, j :: 0 <= i < j < |s| ==> s[i].total >= s[j].total
  }

  /** The index of a largest total in `a[lo..]`. */
  method MaxFrom(a: array<Server.StudentTotal>, lo: nat) returns (m: nat)
    requires lo < a.Length
    ensures lo <= m < a.Length
    ensures forall k :: lo <= k < a.Length ==> a[m].total >= a[k].total
  {
    m := lo;
    var k := lo + 1;
    while k < a.Length
      invariant lo <= m < k <= a.Length
      invariant forall j :: lo <= j < k ==> a[m].total >= a[j].total
    {
      if a[k].total > a[m].total {
        m := k;
      }
      k := k + 1;
    }
  }

  /** Exchanges two entries and leaves the rest in place. */
  method Swap(a: array<Server.StudentTotal>, i: nat, j: nat)
    requires i < a.Length && j < a.Length
    modifies a
    ensures a[i] == old(a[j]) && a[j] == old(a[i])
    ensures forall k :: 0 <= k < a.Length && k != i && k != j ==> a[k] == old(a[k])
    ensures multiset(a[..]) == multiset(old(a[..]))
  {
    a[i], a[j] := a[j], a[i];
  }

  /** `studentTotals.sort((a, b) => b.total - a.total)` (src/Leaderboard.jsx:17): the
      same entries, rearranged in place so that totals never increase. */
  method SortByTotalDescending(a: array<Server.StudentTotal>)
    modifies a
    ensures SortedByTotalDesc(a[..])
    ensures multiset(a[..]) == multiset(old(a[..]))
  {
    var i := 0;
    while i < a.Length
      invariant 0 <= i <= a.Length
      invariant forall x, y :: 0 <= x < y < i ==> a[x].total >= a[y].total
      invariant forall x, y :: 0 <= x < i <= y < a.Length ==> a[x].total >= a[y].total
      invariant multiset(a[..]) == multiset(old(a[..]))
    {
      var m := MaxFrom(a, i);
      Swap(a, i, m);
      i := i + 1;
    }
  }

  /** What the fetch in src/Leaderboard.jsx:10-15 comes to: the request or the
      decoding of its body failed, or a reply arrived with its `ok` flag and, when
      the body has one, its `studentTotals` array. */
  datatype FetchOutcome =
    | Failed
    | Response(ok: bool, studentTotals: Option<seq<Server.StudentTotal>>)

  /** A table row (src/Leaderboard.jsx:45-51). */
  datatype Row = Row(rank: nat, name: string, total: nat)

  /** The rows of the table (src/Leaderboard.jsx:45-51): one per entry, in order,
      ranked from one; over sorted totals the first row holds a largest total and
      totals never rise down the table. */
  function Ranked(totals: seq<Server.StudentTotal>): (rows: seq<Row>)
    ensures |rows| == |totals|
    ensures forall i :: 0 <= i < |rows| ==> rows[i].rank == i + 1
    ensures forall i :: 0 <= i < |rows| ==> rows[i].name == totals[i].name && rows[i].total == totals[i].total
    ensures SortedByTotalDesc(totals) ==>
      forall i, j :: 0 <= i < j < |rows| ==> rows[i].total >= rows[j].total
    ensures SortedByTotalDesc(totals) && |rows| > 0 ==>
      forall k :: 0 <= k < |totals| ==> rows[0].total >= totals[k].total
  {
    seq(|totals|, i requires 0 <= i < |totals| => Row(i + 1, totals[i].name, totals[i].total))
  }

  /** What the component renders (src/Leaderboard.jsx:30-54). */
  datatype Display = LoadingText | ErrorText(message: string) | Table(rows: seq<Row>)

  class LeaderboardView {
    var studentTotals: seq<Server.StudentTotal>
    var loading: bool
    var error: string

    /** The initial state (src/Leaderboard.jsx:4-6). */
    constructor ()
      ensures studentTotals == [] && loading && error == ""
    {
      studentTotals, loading, error := [], true, "";
    }

    /** fetchTotals (src/Leaderboard.jsx:9-26): a reply that is ok and carries totals
        has them sorted by total, highest first, and stored; any other outcome sets the
        error text and keeps the old totals; loading ends either way. */
    method FetchTotals(outcome: FetchOutcome)
      modifies this
      ensures !loading
      ensures outcome.Response? && outcome.ok && outcome.studentTotals.Some? ==>
        && error == old(error)
        && SortedByTotalDesc(studentTotals)
        && multiset(studentTotals) == multiset(outcome.studentTotals.value)
      ensures !(outcome.Response? && outcome.ok && outcome.studentTotals.Some?) ==>
        error == LoadFailed && studentTotals == old(studentTotals)
    {
      if outcome.Response? && outcome.ok && outcome.studentTotals.Some? {
        var t := outcome.studentTotals.value;
        var a := new Server.StudentTotal[|t|](i requires 0 <= i < |t| => t[i]);
        assert a[..] == t;
        SortByTotalDescending(a);
        studentTotals := a[..];
      } else {
        error := LoadFailed;
      }
      loading := false;
    }

    /** The rendered view: the loading text while loading, then the error when there
        is one, and otherwise the ranked table of the stored totals. */
    function Render(): (d: Display)
      reads this
      ensures d.LoadingText? <==> loading
      ensures d.ErrorText? <==> !loading && error != ""
      ensures d.ErrorText? ==> d.message == error
      ensures d.Table? ==> d.rows == Ranked(studentTotals)
    {
      if loading then LoadingText
      else if error != "" then ErrorText(error)
      else Table(Ranked(studentTotals))
    }
  }

  /** From a fresh view, one fetch that succeeds shows the ranked table of a
      rearrangement of exactly the totals it received, highest first, with one row
      per total; one that fails shows the error text. */
  method Mount(outcome: FetchOutcome) returns (d: Display)
    ensures outcome.Response? && outcome.ok && outcome.studentTotals.Some? ==>
      exists t :: multiset(t) == multiset(outcome.studentTotals.value) &&
        SortedByTotalDesc(t) && d == Table(Ranked(t))
    ensures outcome.Response? && outcome.ok && outcome.studentTotals.Some? ==>
      && d.Table?
      && |d.rows| == |outcome.studentTotals.value|
      && (forall i, j :: 0 <= i < j < |d.rows| ==> d.rows[i].total >= d.rows[j].total)
    ensures !(outcome.Response? && outcome.ok && outcome.studentTotals.Some?) ==>
      d == ErrorText(LoadFailed)
  {
    var view := new LeaderboardView();
    view.FetchTotals(outcome);
    d := view.Render();
    if d.Table? {
      var t := view.studentTotals;
      assert |multiset(t)| == |multiset(outcome.studentTotals.value)|;
      assert multiset(t) == multiset(outcome.studentTotals.value) &&
        SortedByTotalDesc(t) && d == Table(Ranked(t));
    }
  }
}
