/** The week/task store: one document of weeks, read and written whole by every
    operation, as `loadData`/`saveData` keep it under the key 'cake-tracker-data'. */
module Storage {
  import opened Wrappers
  import opened Seqs
  import opened Calendar
  import opened Cakes
  import opened Text
  import opened Weeks
  import opened Codec

  class Store {
    /** The stored document's list of weeks. A load followed by a save is a read and a
        write of this field. */
    var weeks: seq<Week>
    /** The next id the id supply (`generateId`) hands out. */
    var nextId: nat

    /** No two weeks share an id, and every id in the document was handed out before the
        counter. `generateId` promises this through the clock; a counter keeps it exactly. */
    predicate Valid()
      reads this
    {
      UniqueWeekIds(weeks) && IdsBelow(weeks, nextId)
    }

    /** A store holding `saved`: an empty list when nothing is stored or the stored text
        does not parse. The invariant holds when the counter starts above every id saved,
        as a later clock reading does, and the saved ids are distinct. */
    constructor (saved: seq<Week>, firstId: nat)
      ensures weeks == saved && nextId == firstId
      ensures UniqueWeekIds(saved) && IdsBelow(saved, firstId) ==> Valid()
    {
      weeks := saved;
      nextId := firstId;
    }

    method GenerateId() returns (id: Id)
      modifies this`nextId
      ensures id == old(nextId) && nextId == old(nextId) + 1
      ensures old(Valid()) ==> Valid() && IdsBelow(weeks, id)
    {
      id := nextId;
      nextId := nextId + 1;
    }

    /** `getCurrentWeek`, with the clock's day passed in: find the week starting on this
        week's Monday, or create one in front of the list. */
    method GetCurrentWeek(today: int) returns (w: Week)
      requires CanFetch(weeks, today)
      modifies this
      ensures var f := FetchCurrentWeek(old(weeks), old(nextId), today);
        w == f.week && weeks == f.weeks && nextId == old(nextId) + (if f.created then 1 else 0)
      ensures old(Valid()) ==> Valid() && IdsBelow([w], nextId)
    {
      if Valid() {
        FetchedIdsBelow(weeks, nextId, today);
      }
      var key := WeekKey(today);
      var i := FindIndex(weeks, StartsOn(key));
      if i >= 0 {
        w := weeks[i];
        return;
      }
      w := CreateWeek(today);
    }

    /** The creating half of `getCurrentWeek`: a new week for this Monday under a new id,
        with the rotation's cake, saved in front of the list. */
    method CreateWeek(today: int) returns (w: Week)
      requires CanCreate(today)
      modifies this
      ensures w == NewWeek(old(nextId), today)
      ensures weeks == [w] + old(weeks) && nextId == old(nextId) + 1
      ensures old(Valid()) ==> Valid()
    {
      var weekNum := WeekNumber(WeekStart(today));
      var id := GenerateId();
      w := Week(id, WeekKey(today), CivilFromDays(WeekEnd(today)), CakeByWeekNumber(weekNum), []);
      if UniqueWeekIds(weeks) && IdsBelow(weeks, id) {
        PrependKeepsIdsFresh(w, weeks, id);
      }
      weeks := [w] + weeks;
    }

    /** `updateWeek`. */
    method UpdateWeek(w: Week)
      modifies this`weeks
      ensures weeks == UpdateWeeks(old(weeks), w)
      ensures old(Valid()) && IdsBelow([w], nextId) ==> Valid()
    {
      if Valid() && IdsBelow([w], nextId) {
        UpdateKeepsIdsFresh(weeks, w, nextId);
      }
      var i := FindIndex(weeks, HasId(w.id));
      if i >= 0 {
        weeks := weeks[i := w];
      } else {
        weeks := [w] + weeks;
      }
    }

    /** `addTask`: the current week gains a task with the trimmed text, not completed,
        under a new id, and is written back. */
    method AddTask(text: string, today: int) returns (w: Week)
      requires CanFetch(weeks, today)
      modifies this
      ensures var f := FetchCurrentWeek(old(weeks), old(nextId), today);
        var taskId := old(nextId) + (if f.created then 1 else 0);
        w == AppendTask(f.week, taskId, Trim(text)) &&
        weeks == UpdateWeeks(f.weeks, w) && nextId == taskId + 1
      ensures old(Valid()) ==> Valid()
    {
      var week := GetCurrentWeek(today);
      w := AppendNewTask(week, text);
    }

    /** The rest of `addTask`: a new id, the task appended with the trimmed text, and the
        week written back. */
    method AppendNewTask(week: Week, text: string) returns (w: Week)
      modifies this
      ensures w == AppendTask(week, old(nextId), Trim(text))
      ensures weeks == UpdateWeeks(old(weeks), w) && nextId == old(nextId) + 1
      ensures old(Valid()) && IdsBelow([week], old(nextId)) ==> Valid()
    {
      var id := GenerateId();
      w := week.(tasks := week.tasks + [Task(id, Trim(text), false)]);
      assert week in [week] && w in [w];
      UpdateWeek(w);
    }

    /** The write-back `toggleTask` and `editTask` share: the week's j-th task replaced by
        one with the same id, and the week saved. */
    method WriteTask(week: Week, j: int, task: Task) returns (updated: Week)
      requires 0 <= j < |week.tasks| && task.id == week.tasks[j].id
      modifies this`weeks
      ensures updated == week.(tasks := week.tasks[j := task])
      ensures weeks == UpdateWeeks(old(weeks), updated)
      ensures old(Valid()) && IdsBelow([week], nextId) ==> Valid()
    {
      updated := week.(tasks := week.tasks[j := task]);
      if IdsBelow([week], nextId) {
        SameIdsKeepFresh(week, updated, nextId);
      }
      UpdateWeek(updated);
    }

    /** `toggleTask`: `None` (null) when no week has the id; the week unchanged and
        nothing written when it has no such task. */
    method ToggleTask(weekId: Id, taskId: Id) returns (r: Option<Week>)
      modifies this`weeks
      ensures var i := FindIndex(old(weeks), HasId(weekId));
        if i < 0 then r == None && weeks == old(weeks)
        else
          var week := old(weeks)[i];
          r == Some(week.(tasks := ToggleInTasks(week.tasks, taskId))) &&
          weeks == if Any(week.tasks, TaskHasId(taskId)) then old(weeks)[i := r.value] else old(weeks)
      ensures old(Valid()) ==> Valid()
    {
      var i := FindIndex(weeks, HasId(weekId));
      if i < 0 {
        return None;
      }
      var week := weeks[i];
      var j := FindIndex(week.tasks, TaskHasId(taskId));
      if j >= 0 {
        var task := week.tasks[j];
        week := WriteTask(week, j, task.(completed := !task.completed));
      }
      r := Some(week);
    }

    /** `editTask`: as toggle, but sets the task's text to the trimmed new text. */
    method EditTask(weekId: Id, taskId: Id, newText: string) returns (r: Option<Week>)
      modifies this`weeks
      ensures var i := FindIndex(old(weeks), HasId(weekId));
        if i < 0 then r == None && weeks == old(weeks)
        else
          var week := old(weeks)[i];
          r == Some(week.(tasks := EditInTasks(week.tasks, taskId, Trim(newText)))) &&
          weeks == if Any(week.tasks, TaskHasId(taskId)) then old(weeks)[i := r.value] else old(weeks)
      ensures old(Valid()) ==> Valid()
    {
      var i := FindIndex(weeks, HasId(weekId));
      if i < 0 {
        return None;
      }
      var week := weeks[i];
      var j := FindIndex(week.tasks, TaskHasId(taskId));
      assert Any(week.tasks, TaskHasId(taskId)) <==> j >= 0;
      if j >= 0 {
        var task := week.tasks[j];
        week := WriteTask(week, j, task.(text := Trim(newText)));
      }
      r := Some(week);
    }

    /** `deleteTask`: `None` when no week has the id; otherwise the week keeps the tasks
        without the task id and is written back. */
    method DeleteTask(weekId: Id, taskId: Id) returns (r: Option<Week>)
      modifies this`weeks
      ensures var i := FindIndex(old(weeks), HasId(weekId));
        if i < 0 then r == None && weeks == old(weeks)
        else
          var week := old(weeks)[i];
          r == Some(week.(tasks := RemoveTask(week.tasks, taskId))) &&
          weeks == old(weeks)[i := r.value]
      ensures old(Valid()) ==> Valid()
    {
      var i := FindIndex(weeks, HasId(weekId));
      if i < 0 {
        return None;
      }
      var week := weeks[i];
      week := week.(tasks := Filter(week.tasks, TaskLacksId(taskId)));
      UpdateWeek(week);
      r := Some(week);
    }

    /** `getAllWeeks`: makes sure the current week exists, then returns the whole list. */
    method GetAllWeeks(today: int) returns (all: seq<Week>)
      requires CanFetch(weeks, today)
      modifies this
      ensures var f := FetchCurrentWeek(old(weeks), old(nextId), today);
        all == weeks && weeks == f.weeks && nextId == old(nextId) + (if f.created then 1 else 0)
      ensures Any(all, StartsOn(WeekKey(today)))
      ensures old(Valid()) ==> Valid()
    {
      ghost var before, supply := weeks, nextId;
      var _ := GetCurrentWeek(today);
      FetchLeavesCurrentInStore(before, supply, today);
      all := weeks;
    }

    /** `exportData`: the document as it is stored; reading it back gives the same weeks. */
    method ExportData() returns (doc: JsonValue)
      ensures ImportedWeeks(Some(doc)) == Some(weeks)
    {
      doc := ExportValue(weeks);
    }

    /** `importData`, given what `JSON.parse` made of the text (`None` when it threw):
        all or nothing. */
    method ImportData(parsed: Option<JsonValue>) returns (ok: bool)
      modifies this`weeks
      ensures ok <==> ImportedWeeks(parsed).Some?
      ensures weeks == if ok then ImportedWeeks(parsed).value else old(weeks)
    {
      var imported := ImportedWeeks(parsed);
      if imported.None? {
        return false;
      }
      weeks := imported.value;
      ok := true;
    }
  }
}
