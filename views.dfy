/** The derived views: completion percentage, whether the cake is earned, and the
    month grouping of the archive. */
module Views {
  import opened Seqs
  import opened Weeks

  function IsDone(): Task -> bool {
    (t: Task) => t.completed
  }

  /** How many tasks of the list are completed. */
  function CompletedCount(ts: seq<Task>): (c: nat)
    ensures c <= |ts|
  {
    Count(ts, IsDone())
  }

  /** `getCompletionPercentage`: 0 for an empty list, otherwise 100 * completed / total
      rounded to the nearest integer, halves rounded up, as `Math.round` does. */
  function CompletionPercentage(w: Week): (p: int)
    ensures 0 <= p <= 100
    ensures |w.tasks| == 0 ==> p == 0
    ensures |w.tasks| > 0 ==>
      2 * |w.tasks| * p <= 200 * CompletedCount(w.tasks) + |w.tasks| < 2 * |w.tasks| * (p + 1)
  {
    var n := |w.tasks|;
    if n == 0 then 0
    else
      var c := CompletedCount(w.tasks);
      RoundingBounds(c, n);
      (200 * c + n) / (2 * n)
  }

  lemma RoundingBounds(c: nat, n: nat)
    requires 0 < n && c <= n
    ensures var p := (200 * c + n) / (2 * n);
      0 <= p <= 100 && 2 * n * p <= 200 * c + n < 2 * n * (p + 1)
  {
    var a, d := 200 * c + n, 2 * n;
    var p := a / d;
    DivBounds(a, d);
    if p < 0 {
      MulMonotone(d, p, -1);
    }
    if p > 100 {
      MulMonotone(d, 101, p);
    }
  }

  lemma DivBounds(a: int, d: int)
    requires d > 0
    ensures d * (a / d) <= a < d * (a / d) + d
  {
  }

  lemma MulMonotone(d: nat, x: int, y: int)
    requires x <= y
    ensures d * x <= d * y
  {
    assert d * y - d * x == d * (y - x);
  }

  /** The percentage is 0 when nothing is done, and 100 when everything is. */
  lemma PercentageExtremes(w: Week)
    ensures CompletedCount(w.tasks) == 0 ==> CompletionPercentage(w) == 0
    ensures |w.tasks| > 0 && CompletedCount(w.tasks) == |w.tasks| ==> CompletionPercentage(w) == 100
  {
    var n, c := |w.tasks|, CompletedCount(w.tasks);
    if n > 0 {
      var p := CompletionPercentage(w);
      var d := 2 * n;
      assert d * p <= 200 * c + n < d * (p + 1);
      if c == 0 && p > 0 {
        MulMonotone(d, 1, p);
      }
      if c == n && p < 100 {
        MulMonotone(d, p + 1, 100);
      }
    }
  }

  lemma TwoOfThree()
    ensures CompletionPercentage(Week(0, Calendar.Date(2026, 1, 12), Calendar.Date(2026, 1, 16), "",
      [Task(1, "a", true), Task(2, "b", true), Task(3, "c", false)])) == 67
  {
    var ts := [Task(1, "a", true), Task(2, "b", true), Task(3, "c", false)];
    assert Filter(ts, IsDone()) == [Task(1, "a", true), Task(2, "b", true)] by {
      assert ts[1..] == [Task(2, "b", true), Task(3, "c", false)];
      assert ts[1..][1..] == [Task(3, "c", false)];
    }
  }

  /** "Cake earned": a non-empty list with every task completed. */
  predicate CakeEarned(w: Week): (r: bool)
    ensures r <==> |w.tasks| > 0 && CompletedCount(w.tasks) == |w.tasks|
  {
    AllDoneCount(w.tasks);
    |w.tasks| > 0 && forall k :: 0 <= k < |w.tasks| ==> w.tasks[k].completed
  }

  /** `isComplete` as the cake card computes it, from the rounded percentage: it holds
      from 99.5 percent of the tasks done on. */
  predicate CakeEarnedByPercentage(w: Week): (r: bool)
    ensures r <==> |w.tasks| > 0 && 200 * CompletedCount(w.tasks) >= 199 * |w.tasks|
  {
    if |w.tasks| == 0 then false
    else
      PercentageHundred(w);
      CompletionPercentage(w) == 100
  }

  /** The percentage rounds to 100 exactly when at least 99.5 percent of the tasks are done. */
  lemma PercentageHundred(w: Week)
    requires |w.tasks| > 0
    ensures CompletionPercentage(w) == 100 <==> 200 * CompletedCount(w.tasks) >= 199 * |w.tasks|
  {
    var n, c, p := |w.tasks|, CompletedCount(w.tasks), CompletionPercentage(w);
    var d := 2 * n;
    assert d * p <= 200 * c + n < d * (p + 1);
    if p == 100 {
      assert d * 100 <= 200 * c + n;
    } else {
      MulMonotone(d, p + 1, 100);
    }
  }

  lemma {:induction false} AllDoneCount(ts: seq<Task>)
    ensures (forall k :: 0 <= k < |ts| ==> ts[k].completed) <==> CompletedCount(ts) == |ts|
  {
    if forall k :: 0 <= k < |ts| ==> ts[k].completed {
      FilterKeepsAll(ts, IsDone());
    } else {
      var k :| 0 <= k < |ts| && !ts[k].completed;
      assert ts == ts[..k] + ts[k..];
      assert ts[k..] == [ts[k]] + ts[k + 1..];
      FilterConcat(ts[..k], ts[k..], IsDone());
      FilterConcat([ts[k]], ts[k + 1..], IsDone());
      assert Filter([ts[k]], IsDone()) == [] by {
        assert [ts[k]][1..] == [];
      }
    }
  }

  /** The corrected notion: earned exactly when the list is non-empty and fully done;
      an earned cake also shows 100 percent. */
  lemma CakeEarnedMeans(w: Week)
    ensures CakeEarned(w) <==> |w.tasks| > 0 && CompletedCount(w.tasks) == |w.tasks|
    ensures CakeEarned(w) ==> CakeEarnedByPercentage(w)
  {
    AllDoneCount(w.tasks);
    PercentageExtremes(w);
  }

  /** With 199 of 200 tasks done the percentage rounds 99.5 up to 100, so the card
      shows the cake as earned while a task is still open. */
  lemma PercentageEarnsTooEarly()
    ensures var w := Week(0, Calendar.Date(2026, 1, 12), Calendar.Date(2026, 1, 16), "",
      [Task(0, "", false)] + seq(199, k requires 0 <= k => Task(k + 1, "", true)));
      CakeEarnedByPercentage(w) && !CakeEarned(w)
  {
    var rest := seq(199, k requires 0 <= k => Task(k + 1, "", true));
    var w := Week(0, Calendar.Date(2026, 1, 12), Calendar.Date(2026, 1, 16), "", [Task(0, "", false)] + rest);
    OneOpenCount(Task(0, "", false), rest);
    assert CompletionPercentage(w) == (200 * 199 + 200) / (2 * 200);
    assert !w.tasks[0].completed;
  }

  /** An open task followed by done ones: all but the first count as completed. */
  lemma OneOpenCount(t: Task, rest: seq<Task>)
    requires !t.completed && forall k :: 0 <= k < |rest| ==> rest[k].completed
    ensures CompletedCount([t] + rest) == |rest|
  {
    FilterConcat([t], rest, IsDone());
    assert Filter([t], IsDone()) == [] by {
      assert [t][1..] == [];
    }
    FilterKeepsAll(rest, IsDone());
  }

  // ---- grouping by month ---------------------------------------------------

  /** The month key `formatMonthYear` gives a week's start date, as (year, month). */
  datatype Month = Month(year: int, month: int)

  function MonthOf(w: Week): Month {
    Month(w.startDate.year, w.startDate.month)
  }

  function InMonth(m: Month): Week -> bool {
    (w: Week) => MonthOf(w) == m
  }

  datatype MonthGroup = MonthGroup(month: Month, weeks: seq<Week>)

  function IsGroupOf(m: Month): MonthGroup -> bool {
    (g: MonthGroup) => g.month == m
  }

  /** One `forEach` step: push the week onto its month's list, or open a new entry at the
      end of the map (a `Map` keeps keys in insertion order). */
  function AddToGroups(gs: seq<MonthGroup>, w: Week): seq<MonthGroup> {
    var i := FindIndex(gs, IsGroupOf(MonthOf(w)));
    if i >= 0 then gs[i := MonthGroup(gs[i].month, gs[i].weeks + [w])]
    else gs + [MonthGroup(MonthOf(w), [w])]
  }

  /** The map after the loop has visited every week of ws. */
  function Grouped(ws: seq<Week>): seq<MonthGroup> {
    if ws == [] then [] else AddToGroups(Grouped(ws[..|ws| - 1]), ws[|ws| - 1])
  }

  function Months(gs: seq<MonthGroup>): (ms: seq<Month>)
    ensures |ms| == |gs| && forall g :: 0 <= g < |gs| ==> ms[g] == gs[g].month
  {
    if gs == [] then [] else [gs[0].month] + Months(gs[1..])
  }

  /** The month keys of ws, each once, in the order they first occur. */
  function FirstSeen(ws: seq<Week>): seq<Month> {
    if ws == [] then []
    else
      var ms := FirstSeen(ws[..|ws| - 1]);
      if MonthOf(ws[|ws| - 1]) in ms then ms else ms + [MonthOf(ws[|ws| - 1])]
  }

  predicate Distinct(ms: seq<Month>) {
    forall i, j :: 0 <= i < j < |ms| ==> ms[i] != ms[j]
  }

  function TotalSize(gs: seq<MonthGroup>): nat {
    if gs == [] then 0 else |gs[0].weeks| + TotalSize(gs[1..])
  }

  /** A loop step adds the week's month to the keys when it is not there yet. */
  lemma AddToGroupsMonths(gs: seq<MonthGroup>, w: Week)
    ensures Months(AddToGroups(gs, w)) ==
      if MonthOf(w) in Months(gs) then Months(gs) else Months(gs) + [MonthOf(w)]
  {
    var r := AddToGroups(gs, w);
    var i := FindIndex(gs, IsGroupOf(MonthOf(w)));
    if i >= 0 {
      assert IsGroupOf(MonthOf(w))(gs[i]);
      assert MonthOf(w) == Months(gs)[i];
      assert forall g :: 0 <= g < |r| ==> Months(r)[g] == Months(gs)[g];
    } else {
      assert forall g :: 0 <= g < |gs| ==> !IsGroupOf(MonthOf(w))(gs[g]);
      assert MonthOf(w) !in Months(gs);
      assert forall g :: 0 <= g < |r| ==> Months(r)[g] == (Months(gs) + [MonthOf(w)])[g];
    }
  }

  /** The keys of the grouping are the months in first-seen order. */
  lemma {:induction false} GroupedMonths(ws: seq<Week>)
    ensures Months(Grouped(ws)) == FirstSeen(ws)
  {
    if ws != [] {
      var init, w := ws[..|ws| - 1], ws[|ws| - 1];
      GroupedMonths(init);
      AddToGroupsMonths(Grouped(init), w);
    }
  }

  lemma {:induction false} FirstSeenDistinct(ws: seq<Week>)
    ensures Distinct(FirstSeen(ws))
  {
    if ws != [] {
      FirstSeenDistinct(ws[..|ws| - 1]);
    }
  }

  /** Each group holds, in input order, exactly the weeks of ws in its month. */
  predicate GroupsMatch(gs: seq<MonthGroup>, ws: seq<Week>) {
    forall g :: 0 <= g < |gs| ==> gs[g].weeks == Filter(ws, InMonth(gs[g].month))
  }

  /** A step of the loop keeps every group equal to the filter of its month. */
  lemma AddToGroupsMatches(gs: seq<MonthGroup>, ws: seq<Week>, w: Week)
    requires GroupsMatch(gs, ws) && Distinct(Months(gs))
    requires forall j :: 0 <= j < |ws| ==> MonthOf(ws[j]) in Months(gs)
    ensures GroupsMatch(AddToGroups(gs, w), ws + [w])
  {
    var r := AddToGroups(gs, w);
    forall g | 0 <= g < |r|
      ensures r[g].weeks == Filter(ws + [w], InMonth(r[g].month))
    {
      AddToGroupMatches(gs, ws, w, g);
    }
  }

  /** The same, for the group at position g after the step. */
  lemma AddToGroupMatches(gs: seq<MonthGroup>, ws: seq<Week>, w: Week, g: int)
    requires GroupsMatch(gs, ws) && Distinct(Months(gs))
    requires forall j :: 0 <= j < |ws| ==> MonthOf(ws[j]) in Months(gs)
    requires 0 <= g < |AddToGroups(gs, w)|
    ensures var r := AddToGroups(gs, w);
      r[g].weeks == Filter(ws + [w], InMonth(r[g].month))
  {
    var r := AddToGroups(gs, w);
    var i := FindIndex(gs, IsGroupOf(MonthOf(w)));
    var m := r[g].month;
    FilterConcat(ws, [w], InMonth(m));
    assert [w][1..] == [];
    if g == i {
      assert IsGroupOf(MonthOf(w))(gs[i]);
    } else if g < |gs| {
      assert Months(gs)[g] == gs[g].month;
      if i >= 0 {
        assert Months(gs)[i] == gs[i].month;
        assert IsGroupOf(MonthOf(w))(gs[i]);
      }
      assert gs[g].month != MonthOf(w);
    } else {
      assert forall j :: 0 <= j < |gs| ==> !IsGroupOf(MonthOf(w))(gs[j]);
      assert m !in Months(gs);
      FilterKeepsNone(ws, InMonth(m));
    }
  }

  lemma {:induction false} GroupedContents(ws: seq<Week>)
    ensures GroupsMatch(Grouped(ws), ws)
  {
    if ws != [] {
      var init, w := ws[..|ws| - 1], ws[|ws| - 1];
      assert ws == init + [w];
      GroupedContents(init);
      GroupedMonths(init);
      FirstSeenDistinct(init);
      forall j | 0 <= j < |init| ensures MonthOf(init[j]) in Months(Grouped(init)) {
        FirstSeenHas(init, j);
      }
      AddToGroupsMatches(Grouped(init), init, w);
    }
  }

  /** Every week lands in some group: the one of its month. */
  lemma {:induction false} EveryWeekGrouped(ws: seq<Week>, k: int)
    requires 0 <= k < |ws|
    ensures MonthOf(ws[k]) in Months(Grouped(ws))
  {
    GroupedMonths(ws);
    FirstSeenHas(ws, k);
  }

  lemma {:induction false} FirstSeenHas(ws: seq<Week>, k: int)
    requires 0 <= k < |ws|
    ensures MonthOf(ws[k]) in FirstSeen(ws)
  {
    if k < |ws| - 1 {
      FirstSeenHas(ws[..|ws| - 1], k);
    }
  }

  lemma {:induction false} TotalSizeUpdate(gs: seq<MonthGroup>, i: int, x: MonthGroup)
    requires 0 <= i < |gs|
    ensures TotalSize(gs[i := x]) == TotalSize(gs) - |gs[i].weeks| + |x.weeks|
  {
    if i > 0 {
      assert gs[i := x][1..] == gs[1..][i - 1 := x];
      TotalSizeUpdate(gs[1..], i - 1, x);
    }
  }

  lemma {:induction false} TotalSizeAppend(gs: seq<MonthGroup>, x: MonthGroup)
    ensures TotalSize(gs + [x]) == TotalSize(gs) + |x.weeks|
  {
    if gs != [] {
      assert (gs + [x])[1..] == gs[1..] + [x];
      TotalSizeAppend(gs[1..], x);
    }
  }

  /** No week is lost or duplicated: the groups hold as many weeks as the input. */
  lemma {:induction false} GroupedTotal(ws: seq<Week>)
    ensures TotalSize(Grouped(ws)) == |ws|
  {
    if ws != [] {
      var init, w := ws[..|ws| - 1], ws[|ws| - 1];
      GroupedTotal(init);
      var gs := Grouped(init);
      var i := FindIndex(gs, IsGroupOf(MonthOf(w)));
      if i >= 0 {
        TotalSizeUpdate(gs, i, MonthGroup(gs[i].month, gs[i].weeks + [w]));
      } else {
        TotalSizeAppend(gs, MonthGroup(MonthOf(w), [w]));
      }
    }
  }

  /** `groupWeeksByMonth`, with its `forEach` loop over the weeks. */
  method GroupWeeksByMonth(weeks: seq<Week>) returns (groups: seq<MonthGroup>)
    ensures groups == Grouped(weeks)
    ensures Months(groups) == FirstSeen(weeks) && Distinct(Months(groups))
    ensures forall g :: 0 <= g < |groups| ==> groups[g].weeks == Filter(weeks, InMonth(groups[g].month))
    ensures forall k :: 0 <= k < |weeks| ==> MonthOf(weeks[k]) in Months(groups)
    ensures TotalSize(groups) == |weeks|
  {
    groups := [];
    var i := 0;
    while i < |weeks|
      invariant 0 <= i <= |weeks|
      invariant groups == Grouped(weeks[..i])
    {
      var week := weeks[i];
      var key := MonthOf(week);
      var g := FindIndex(groups, IsGroupOf(key));
      if g >= 0 {
        groups := groups[g := MonthGroup(groups[g].month, groups[g].weeks + [week])];
      } else {
        groups := groups + [MonthGroup(key, [week])];
      }
      assert weeks[..i + 1][..i] == weeks[..i];
      i := i + 1;
    }
    assert weeks[..i] == weeks;
    GroupedMonths(weeks);
    FirstSeenDistinct(weeks);
    GroupedContents(weeks);
    GroupedTotal(weeks);
    forall k | 0 <= k < |weeks| ensures MonthOf(weeks[k]) in Months(groups) {
      EveryWeekGrouped(weeks, k);
    }
  }
}
