/** The stored records and the pure transformations the store's read-modify-write
    operations apply to the list of weeks. */
module Weeks {
  import opened Seqs
  import opened Calendar
  import opened Cakes

  /** Identifiers come from a counter standing in for `generateId`. */
  type Id = nat

  datatype Task = Task(id: Id, text: string, completed: bool)

  datatype Week = Week(id: Id, startDate: CivilDate, endDate: CivilDate, cakeEmoji: string, tasks: seq<Task>)

  function HasId(id: Id): Week -> bool {
    (w: Week) => w.id == id
  }

  function StartsOn(d: CivilDate): Week -> bool {
    (w: Week) => w.startDate == d
  }

  function TaskHasId(id: Id): Task -> bool {
    (t: Task) => t.id == id
  }

  function TaskLacksId(id: Id): Task -> bool {
    (t: Task) => t.id != id
  }

  /** At most one week per start date. */
  predicate UniqueStarts(ws: seq<Week>) {
    forall i, j :: 0 <= i < j < |ws| ==> ws[i].startDate != ws[j].startDate
  }

  predicate UniqueWeekIds(ws: seq<Week>) {
    forall i, j :: 0 <= i < j < |ws| ==> ws[i].id != ws[j].id
  }

  /** Every id in the document was handed out before `bound`. */
  predicate IdsBelow(ws: seq<Week>, bound: nat) {
    forall w :: w in ws ==> w.id < bound && forall t :: t in w.tasks ==> t.id < bound
  }

  /** Every id in the document was handed out at or after `bound`. */
  predicate IdsAtLeast(ws: seq<Week>, bound: nat) {
    forall w :: w in ws ==> w.id >= bound && forall t :: t in w.tasks ==> t.id >= bound
  }

  /** Weeks whose ids were all drawn before `mid` followed by weeks drawn from `mid` on:
      the week ids stay distinct. */
  lemma AppendKeepsUniqueIds(ws: seq<Week>, hs: seq<Week>, mid: nat)
    requires UniqueWeekIds(ws) && UniqueWeekIds(hs) && IdsBelow(ws, mid) && IdsAtLeast(hs, mid)
    ensures UniqueWeekIds(ws + hs)
  {
    var r := ws + hs;
    forall i, j | 0 <= i < j < |r| ensures r[i].id != r[j].id {
      if j < |ws| {
        assert r[i] == ws[i] && r[j] == ws[j];
      } else if i < |ws| {
        assert r[i] == ws[i] && r[i] in ws;
        assert r[j] == hs[j - |ws|] && r[j] in hs;
      } else {
        assert r[i] == hs[i - |ws|] && r[j] == hs[j - |ws|];
      }
    }
  }

  /** Dropping one week keeps the rest distinct and different from the dropped one. */
  lemma UniqueWithout(ws: seq<Week>, p: int)
    requires UniqueWeekIds(ws) && 0 <= p < |ws|
    ensures var r := ws[..p] + ws[p + 1..];
      UniqueWeekIds(r) && forall k :: 0 <= k < |r| ==> r[k].id != ws[p].id
  {
    var r := ws[..p] + ws[p + 1..];
    assert forall k :: 0 <= k < |r| ==> r[k] == if k < p then ws[k] else ws[k + 1];
  }

  /** A rearrangement of weeks with distinct ids has distinct ids. */
  lemma {:induction false} PermutedIdsUnique(a: seq<Week>, b: seq<Week>)
    requires multiset(a) == multiset(b) && UniqueWeekIds(a)
    ensures UniqueWeekIds(b)
    decreases |b|
  {
    if b != [] {
      var x, b' := b[|b| - 1], b[..|b| - 1];
      assert b == b' + [x];
      assert x in multiset(a);
      var p :| 0 <= p < |a| && a[p] == x;
      var a' := a[..p] + a[p + 1..];
      RemoveOne(a, p);
      RemoveOne(b, |b| - 1);
      UniqueWithout(a, p);
      PermutedIdsUnique(a', b');
      forall i | 0 <= i < |b'| ensures b'[i].id != x.id {
        assert b'[i] in multiset(a');
      }
      AppendOneUnique(b', x);
    }
  }

  /** A rearrangement keeps every id below the bound. */
  lemma PermutedIdsBelow(a: seq<Week>, b: seq<Week>, bound: nat)
    requires multiset(a) == multiset(b) && IdsBelow(a, bound)
    ensures IdsBelow(b, bound)
  {
    forall w | w in b
      ensures w.id < bound && forall t :: t in w.tasks ==> t.id < bound
    {
      assert w in multiset(a);
    }
  }

  lemma RemoveOne(s: seq<Week>, p: int)
    requires 0 <= p < |s|
    ensures multiset(s[..p] + s[p + 1..]) == multiset(s) - multiset{s[p]}
  {
    assert s == s[..p] + [s[p]] + s[p + 1..];
  }

  lemma AppendOneUnique(ws: seq<Week>, x: Week)
    requires UniqueWeekIds(ws) && forall k :: 0 <= k < |ws| ==> ws[k].id != x.id
    ensures UniqueWeekIds(ws + [x])
  {
    var r := ws + [x];
    forall i, j | 0 <= i < j < |r| ensures r[i].id != r[j].id {
      assert r[i] == ws[i];
    }
  }

  lemma {:induction false} FirstWithOwnId(ws: seq<Week>, i: int)
    requires UniqueWeekIds(ws) && 0 <= i < |ws|
    ensures FindIndex(ws, HasId(ws[i].id)) == i
  {
    var j := FindIndex(ws, HasId(ws[i].id));
    assert HasId(ws[i].id)(ws[i]);
    assert j >= 0;
  }

  // ---- the current week --------------------------------------------------

  /** The start date the current week is looked up by: the Monday of `today`. */
  function WeekKey(today: int): (d: CivilDate)
    ensures Weekday(DaysFromCivil(d)) == 1
    ensures DaysFromCivil(d) <= today <= DaysFromCivil(d) + 6
  {
    CivilFromDays(WeekStart(today))
  }

  /** The cake of a new week is defined: `getCakeByWeekNumber` indexes the collection. */
  predicate CanCreate(today: int) {
    HasCake(WeekNumber(WeekStart(today)))
  }

  lemma CanCreateFromYear100(today: int)
    requires YearOf(WeekStart(today)) >= 100
    ensures CanCreate(today)
  {
    HasCakeExactly(WeekNumber(WeekStart(today)));
  }

  /** The rotation follows week numbers, not weeks: the Mondays 2028-12-25 and 2029-01-01,
      one week apart, get the same week number and therefore the same cake. */
  lemma YearEndRepeatsCake()
    ensures var a, b := DaysFromCivil(Date(2028, 12, 25)), DaysFromCivil(Date(2029, 1, 1));
      b == a + 7 && Weekday(a) == 1 && WeekNumber(a) == WeekNumber(b) == 105509
  {
    var a, b := DaysFromCivil(Date(2028, 12, 25)), DaysFromCivil(Date(2029, 1, 1));
    assert a == 21543 && b == 21550;
    assert YearStart(2028) == 21184 && YearStart(2029) == 21550 && YearStart(2030) == 21915;
    YearOfUnique(a, 2028);
    YearOfUnique(b, 2029);
  }

  /** The week `getCurrentWeek` creates when the store has none for `today`. */
  function NewWeek(id: Id, today: int): (w: Week)
    requires CanCreate(today)
    ensures w.id == id && w.tasks == []
    ensures w.startDate == WeekKey(today)
    ensures DaysFromCivil(w.endDate) == DaysFromCivil(w.startDate) + 4
    ensures Weekday(DaysFromCivil(w.endDate)) == 5
    ensures w.cakeEmoji == Collection[WeekNumber(WeekStart(today)) % |Collection|].emoji
  {
    Week(id, WeekKey(today), CivilFromDays(WeekEnd(today)),
         CakeByWeekNumber(WeekNumber(WeekStart(today))), [])
  }

  /** What a `getCurrentWeek` call returns and leaves in the store, and whether it
      created the week. */
  datatype Fetched = Fetched(week: Week, weeks: seq<Week>, created: bool)

  predicate CanFetch(ws: seq<Week>, today: int) {
    Any(ws, StartsOn(WeekKey(today))) || CanCreate(today)
  }

  /** Find-or-create keyed on the start date. */
  function FetchCurrentWeek(ws: seq<Week>, nextId: Id, today: int): (f: Fetched)
    requires CanFetch(ws, today)
    ensures f.week.startDate == WeekKey(today)
    ensures f.created <==> forall j :: 0 <= j < |ws| ==> ws[j].startDate != WeekKey(today)
    ensures !f.created ==> f.weeks == ws && f.week == ws[FindIndex(ws, StartsOn(WeekKey(today)))]
    ensures f.created ==> f.week == NewWeek(nextId, today) && f.weeks == [f.week] + ws
  {
    var i := FindIndex(ws, StartsOn(WeekKey(today)));
    if i >= 0 then Fetched(ws[i], ws, false)
    else
      var w := NewWeek(nextId, today);
      Fetched(w, [w] + ws, true)
  }

  /** A second call finds the week the first returned, and changes nothing. */
  lemma FetchIdempotent(ws: seq<Week>, nextId: Id, nextId': Id, today: int)
    requires CanFetch(ws, today)
    ensures var f := FetchCurrentWeek(ws, nextId, today);
      CanFetch(f.weeks, today) &&
      var g := FetchCurrentWeek(f.weeks, nextId', today);
      !g.created && g.week == f.week && g.weeks == f.weeks
  {
    var f := FetchCurrentWeek(ws, nextId, today);
    var key := WeekKey(today);
    if f.created {
      assert StartsOn(key)(f.weeks[0]);
    } else {
      var i := FindIndex(ws, StartsOn(key));
      assert StartsOn(key)(ws[i]);
    }
    var g := FetchCurrentWeek(f.weeks, nextId', today);
    if !f.created {
      assert g.week == f.week;
    }
  }

  /** The week returned is in the store afterwards, as the first week of its start date. */
  lemma FetchLeavesCurrentInStore(ws: seq<Week>, nextId: Id, today: int)
    requires CanFetch(ws, today)
    ensures var f := FetchCurrentWeek(ws, nextId, today);
      var i := FindIndex(f.weeks, StartsOn(WeekKey(today)));
      0 <= i < |f.weeks| && f.weeks[i] == f.week
  {
    FetchIdempotent(ws, nextId, nextId, today);
  }

  /** The week find-or-create returns has its ids below the counter as it is afterwards. */
  lemma FetchedIdsBelow(ws: seq<Week>, nextId: Id, today: int)
    requires CanFetch(ws, today) && IdsBelow(ws, nextId)
    ensures var f := FetchCurrentWeek(ws, nextId, today);
      IdsBelow([f.week], nextId + (if f.created then 1 else 0))
  {
    var f := FetchCurrentWeek(ws, nextId, today);
    if f.created {
      NoTasksIdsBelow(f.week, nextId + 1);
    } else {
      MemberIdsBelow(ws, FindIndex(ws, StartsOn(WeekKey(today))), nextId);
    }
  }

  lemma NoTasksIdsBelow(w: Week, bound: nat)
    requires w.id < bound && w.tasks == []
    ensures IdsBelow([w], bound)
  {
  }

  /** A week of the document has its ids below the document's bound. */
  lemma MemberIdsBelow(ws: seq<Week>, i: int, bound: nat)
    requires IdsBelow(ws, bound) && 0 <= i < |ws|
    ensures IdsBelow([ws[i]], bound)
  {
    assert ws[i] in ws;
  }

  lemma PrependKeepsUniqueStarts(w: Week, ws: seq<Week>)
    requires UniqueStarts(ws)
    requires forall j :: 0 <= j < |ws| ==> ws[j].startDate != w.startDate
    ensures UniqueStarts([w] + ws)
  {
    var r := [w] + ws;
    forall i, j | 0 <= i < j < |r| ensures r[i].startDate != r[j].startDate {
      assert r[j] == ws[j - 1];
      if i > 0 {
        assert r[i] == ws[i - 1];
      }
    }
  }

  lemma PrependKeepsIdsFresh(w: Week, ws: seq<Week>, nextId: Id)
    requires UniqueWeekIds(ws) && IdsBelow(ws, nextId)
    requires w.id == nextId && w.tasks == []
    ensures UniqueWeekIds([w] + ws) && IdsBelow([w] + ws, nextId + 1)
  {
    var r := [w] + ws;
    forall i, j | 0 <= i < j < |r| ensures r[i].id != r[j].id {
      assert r[j] == ws[j - 1] && r[j] in ws;
      if i > 0 {
        assert r[i] == ws[i - 1];
      }
    }
  }

  /** Find-or-create never makes a second week with the same start date. */
  lemma FetchKeepsUniqueStarts(ws: seq<Week>, nextId: Id, today: int)
    requires CanFetch(ws, today) && UniqueStarts(ws)
    ensures UniqueStarts(FetchCurrentWeek(ws, nextId, today).weeks)
  {
    var f := FetchCurrentWeek(ws, nextId, today);
    if f.created {
      PrependKeepsUniqueStarts(f.week, ws);
    }
  }

  /** With a fresh-id supply, the created week's id collides with nothing. */
  lemma FetchKeepsIdsFresh(ws: seq<Week>, nextId: Id, today: int)
    requires CanFetch(ws, today) && UniqueWeekIds(ws) && IdsBelow(ws, nextId)
    ensures var f := FetchCurrentWeek(ws, nextId, today);
      UniqueWeekIds(f.weeks) && IdsBelow(f.weeks, if f.created then nextId + 1 else nextId)
  {
    var f := FetchCurrentWeek(ws, nextId, today);
    if f.created {
      PrependKeepsIdsFresh(f.week, ws, nextId);
    }
  }

  // ---- replace-or-prepend --------------------------------------------------

  /** `updateWeek`: replaces the first week with w's id by w, or puts w in front. */
  function UpdateWeeks(ws: seq<Week>, w: Week): (r: seq<Week>)
    ensures w in r
    ensures Any(ws, HasId(w.id)) ==> |r| == |ws| && r[FindIndex(ws, HasId(w.id))] == w
    ensures Any(ws, HasId(w.id)) ==>
      forall k :: 0 <= k < |ws| && k != FindIndex(ws, HasId(w.id)) ==> r[k] == ws[k]
    ensures !Any(ws, HasId(w.id)) ==> r == [w] + ws
  {
    var i := FindIndex(ws, HasId(w.id));
    if i >= 0 then
      var r := ws[i := w];
      assert r[i] == w;
      r
    else [w] + ws
  }

  lemma UpdateWeeksIdempotent(ws: seq<Week>, w: Week)
    ensures UpdateWeeks(UpdateWeeks(ws, w), w) == UpdateWeeks(ws, w)
  {
    var i := FindIndex(ws, HasId(w.id));
    if i >= 0 {
      FindIndexAfterUpdate(ws, i, w, HasId(w.id));
    } else {
      assert HasId(w.id)(([w] + ws)[0]);
    }
  }

  /** Writing back a week whose ids were all handed out keeps week ids unique and every
      id below the counter. */
  lemma UpdateKeepsIdsFresh(ws: seq<Week>, w: Week, bound: nat)
    requires UniqueWeekIds(ws) && IdsBelow(ws, bound) && IdsBelow([w], bound)
    ensures UniqueWeekIds(UpdateWeeks(ws, w)) && IdsBelow(UpdateWeeks(ws, w), bound)
  {
    var r := UpdateWeeks(ws, w);
    assert w in [w];
    if Any(ws, HasId(w.id)) {
      var i := FindIndex(ws, HasId(w.id));
      assert forall k :: 0 <= k < |r| ==> r[k].id == ws[k].id;
      forall x | x in r
        ensures x.id < bound && forall t :: t in x.tasks ==> t.id < bound
      {
        var k :| 0 <= k < |r| && r[k] == x;
        if k != i {
          assert ws[k] in ws;
        }
      }
    } else {
      PrependKeepsUnique(w, ws);
    }
  }

  /** A week whose tasks changed in place, keeping their ids, keeps its ids handed out. */
  lemma SameIdsKeepFresh(a: Week, b: Week, bound: nat)
    requires IdsBelow([a], bound) && b.id == a.id && |b.tasks| == |a.tasks|
    requires forall k :: 0 <= k < |a.tasks| ==> b.tasks[k].id == a.tasks[k].id
    ensures IdsBelow([b], bound)
  {
    assert a in [a];
    forall x | x in [b]
      ensures x.id < bound && forall t :: t in x.tasks ==> t.id < bound
    {
      forall t | t in b.tasks
        ensures t.id < bound
      {
        var k :| 0 <= k < |b.tasks| && b.tasks[k] == t;
        assert a.tasks[k] in a.tasks;
      }
    }
  }

  lemma PrependKeepsUnique(w: Week, ws: seq<Week>)
    requires UniqueWeekIds(ws)
    requires forall j :: 0 <= j < |ws| ==> ws[j].id != w.id
    ensures UniqueWeekIds([w] + ws)
  {
    var r := [w] + ws;
    forall i, j | 0 <= i < j < |r| ensures r[i].id != r[j].id {
      assert r[j] == ws[j - 1];
      if i > 0 {
        assert r[i] == ws[i - 1];
      }
    }
  }

  // ---- task edits ----------------------------------------------------------

  /** The task list with a new task at its end, as `addTask` builds it. */
  function AppendTask(w: Week, id: Id, text: string): (r: Week)
    ensures r.id == w.id && r.startDate == w.startDate && r.endDate == w.endDate
    ensures r.cakeEmoji == w.cakeEmoji
    ensures |r.tasks| == |w.tasks| + 1 && r.tasks[..|w.tasks|] == w.tasks
    ensures r.tasks[|w.tasks|] == Task(id, text, false)
  {
    var r := w.(tasks := w.tasks + [Task(id, text, false)]);
    assert r.tasks[..|w.tasks|] == w.tasks;
    r
  }

  /** `addTask` on the document: after find-or-create the week gains the task and is
      written back in its own place; every other week and every earlier task stays. */
  lemma {:induction false} AddTaskInPlace(ws: seq<Week>, nextId: Id, today: int, text: string)
    requires CanFetch(ws, today) && UniqueWeekIds(ws)
    ensures var f := FetchCurrentWeek(ws, nextId, today);
      var taskId := if f.created then nextId + 1 else nextId;
      var w := AppendTask(f.week, taskId, text);
      var i := FindIndex(f.weeks, StartsOn(WeekKey(today)));
      0 <= i < |f.weeks| && UpdateWeeks(f.weeks, w) == f.weeks[i := w]
  {
    var f := FetchCurrentWeek(ws, nextId, today);
    var taskId := if f.created then nextId + 1 else nextId;
    var w := AppendTask(f.week, taskId, text);
    FetchLeavesCurrentInStore(ws, nextId, today);
    var i := FindIndex(f.weeks, StartsOn(WeekKey(today)));
    if f.created {
      assert HasId(w.id)(f.weeks[0]);
      assert FindIndex(f.weeks, HasId(w.id)) == 0;
    } else {
      FirstWithOwnId(f.weeks, i);
      assert f.weeks[i].id == w.id;
    }
  }

  /** After `addTask`, `getCurrentWeek` finds the week it wrote, which has one task more
      than before and the new task last. */
  lemma AddTaskThenFetch(ws: seq<Week>, nextId: Id, nextId': Id, today: int, text: string)
    requires CanFetch(ws, today) && UniqueWeekIds(ws)
    ensures var f := FetchCurrentWeek(ws, nextId, today);
      var taskId := if f.created then nextId + 1 else nextId;
      var after := UpdateWeeks(f.weeks, AppendTask(f.week, taskId, text));
      CanFetch(after, today) &&
      var g := FetchCurrentWeek(after, nextId', today);
      !g.created && g.weeks == after && g.week == AppendTask(f.week, taskId, text) &&
      |g.week.tasks| == |f.week.tasks| + 1
  {
    var f := FetchCurrentWeek(ws, nextId, today);
    var taskId := if f.created then nextId + 1 else nextId;
    var w := AppendTask(f.week, taskId, text);
    AddTaskInPlace(ws, nextId, today, text);
    FetchLeavesCurrentInStore(ws, nextId, today);
    var i := FindIndex(f.weeks, StartsOn(WeekKey(today)));
    FindIndexAfterUpdate(f.weeks, i, w, StartsOn(WeekKey(today)));
  }

  /** `toggleTask` on a task list: flips `completed` of the first task with the id. */
  function ToggleInTasks(ts: seq<Task>, taskId: Id): (r: seq<Task>)
    ensures |r| == |ts|
    ensures forall k :: 0 <= k < |ts| ==> r[k].id == ts[k].id && r[k].text == ts[k].text
    ensures forall k :: 0 <= k < |ts| && k != FindIndex(ts, TaskHasId(taskId)) ==> r[k] == ts[k]
    ensures Any(ts, TaskHasId(taskId)) ==>
      r[FindIndex(ts, TaskHasId(taskId))].completed != ts[FindIndex(ts, TaskHasId(taskId))].completed
  {
    var i := FindIndex(ts, TaskHasId(taskId));
    if i >= 0 then ts[i := ts[i].(completed := !ts[i].completed)] else ts
  }

  lemma ToggleTwice(ts: seq<Task>, taskId: Id)
    ensures ToggleInTasks(ToggleInTasks(ts, taskId), taskId) == ts
  {
    var i := FindIndex(ts, TaskHasId(taskId));
    if i >= 0 {
      FindIndexAfterUpdate(ts, i, ts[i].(completed := !ts[i].completed), TaskHasId(taskId));
    }
  }

  /** `editTask` on a task list: sets `text` of the first task with the id. */
  function EditInTasks(ts: seq<Task>, taskId: Id, text: string): (r: seq<Task>)
    ensures |r| == |ts|
    ensures forall k :: 0 <= k < |ts| ==> r[k].id == ts[k].id && r[k].completed == ts[k].completed
    ensures forall k :: 0 <= k < |ts| && k != FindIndex(ts, TaskHasId(taskId)) ==> r[k] == ts[k]
    ensures Any(ts, TaskHasId(taskId)) ==> r[FindIndex(ts, TaskHasId(taskId))].text == text
  {
    var i := FindIndex(ts, TaskHasId(taskId));
    if i >= 0 then ts[i := ts[i].(text := text)] else ts
  }

  /** Editing twice with the same text is editing once. */
  lemma EditIdempotent(ts: seq<Task>, taskId: Id, text: string)
    ensures EditInTasks(EditInTasks(ts, taskId, text), taskId, text) == EditInTasks(ts, taskId, text)
  {
    var i := FindIndex(ts, TaskHasId(taskId));
    if i >= 0 {
      FindIndexAfterUpdate(ts, i, ts[i].(text := text), TaskHasId(taskId));
    }
  }

  /** `deleteTask` on a task list: keeps, in order, the tasks without the id. */
  function RemoveTask(ts: seq<Task>, taskId: Id): (r: seq<Task>)
    ensures forall t :: t in r ==> t in ts && t.id != taskId
    ensures forall t :: t in ts && t.id != taskId ==> t in r
  {
    Filter(ts, TaskLacksId(taskId))
  }

  /** The task count drops by the number of tasks with the id, and removing an id that
      is not there changes nothing. */
  lemma RemoveTaskCount(ts: seq<Task>, taskId: Id)
    ensures |RemoveTask(ts, taskId)| == |ts| - Count(ts, TaskHasId(taskId))
    ensures !Any(ts, TaskHasId(taskId)) ==> RemoveTask(ts, taskId) == ts
  {
    FilterSplit(ts, TaskLacksId(taskId), TaskHasId(taskId));
    if !Any(ts, TaskHasId(taskId)) {
      FilterKeepsAll(ts, TaskLacksId(taskId));
    }
  }

  /** Removal keeps the order of what is left: it works piecewise on any split. */
  lemma RemoveTaskPiecewise(a: seq<Task>, b: seq<Task>, taskId: Id)
    ensures RemoveTask(a + b, taskId) == RemoveTask(a, taskId) + RemoveTask(b, taskId)
  {
    FilterConcat(a, b, TaskLacksId(taskId));
  }
}
