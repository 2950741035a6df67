/** Seeding: the four historical weeks and the guarded merge that adds them to the store,
    newest week first. */
module Seed {
  import opened Seqs
  import opened Calendar
  import opened Weeks
  import opened Storage
  import opened Sorting

  /** The start date whose presence means the history is already there. */
  const HistoryStart: CivilDate := Date(2026, 1, 12)

  const Jan16: CivilDate := Date(2026, 1, 16)
  const Jan19: CivilDate := Date(2026, 1, 19)
  const Jan24: CivilDate := Date(2026, 1, 24)
  const Jan26: CivilDate := Date(2026, 1, 26)
  const Jan30: CivilDate := Date(2026, 1, 30)
  const Feb02: CivilDate := Date(2026, 2, 2)
  const Feb06: CivilDate := Date(2026, 2, 6)

  /** `historicalCakes`. Its ids come from the id supply when the module loads, in the
      order the literal is evaluated: each week's id, then its tasks' ids. The second
      week's end date is a Saturday, as transcribed. */
  function HistoricalCakes(firstId: Id): (ws: seq<Week>)
    ensures |ws| == 4 && ws[0].startDate == HistoryStart
  {
    [FirstWeek(firstId), SecondWeek(firstId + 5), ThirdWeek(firstId + 10), FourthWeek(firstId + 15)]
  }

  function FirstWeek(i: Id): Week {
    Week(i, HistoryStart, Jan16, "\U{1F382}", [
      Task(i + 1, Jan12Task1, true), Task(i + 2, Jan12Task2, true),
      Task(i + 3, Jan12Task3, true), Task(i + 4, Jan12Task4, true)])
  }

  function SecondWeek(i: Id): Week {
    Week(i, Jan19, Jan24, "\U{1F370}", [
      Task(i + 1, Jan19Task1, true), Task(i + 2, Jan19Task2, true),
      Task(i + 3, Jan19Task3, false), Task(i + 4, Jan19Task4, false)])
  }

  function ThirdWeek(i: Id): Week {
    Week(i, Jan26, Jan30, "\U{1F9C1}", [
      Task(i + 1, Jan26Task1, true), Task(i + 2, Jan26Task2, true),
      Task(i + 3, Jan26Task3, true), Task(i + 4, Jan26Task4, true)])
  }

  function FourthWeek(i: Id): Week {
    Week(i, Feb02, Feb06, "\U{1F382}", [
      Task(i + 1, Feb02Task1, true), Task(i + 2, Feb02Task2, true),
      Task(i + 3, Feb02Task3, true), Task(i + 4, Feb02Task4, true)])
  }

  // The task texts, as transcribed.
  const Jan12Task1: string := "Send Regional Manager Email (includes PM 13+)"
  const Jan12Task2: string := "Get 3 CSMs (like Monica, NC) with the program to handle/document cases"
  const Jan12Task3: string := "Curate new list of required compliance issues, rep entries to delta (H5012)"
  const Jan12Task4: string := "Soft doubt emails after Bloom 15"
  const Jan19Task1: string := "Send WB/GoldOaks Regional Manager Emails"
  const Jan19Task2: string := "Create Baseball views on Metabase"
  const Jan19Task3: string := "Find and turn on IPO properties integrations"
  const Jan19Task4: string := "Identify properties but clarify what to do next"
  const Jan26Task1: string := "Send 25,000 Bug Free emails to users missing from PS"
  const Jan26Task2: string := "Make heartbeat chart publicly published"
  const Jan26Task3: string := "Figure out if we can pull property list (w/ ownership info) from Yardi - force API call"
  const Jan26Task4: string := "Make User loved now in heartbeat"
  const Feb02Task1: string := "Send 70k emails to PHA + Leads audience currently excluded from Yardi"
  const Feb02Task2: string := "Use the HB chart to read all 5 beds on PS"
  const Feb02Task3: string := "Add change log to HBeloved + brief priority ranking for ships"
  const Feb02Task4: string := "#5 footprints why ToC"

  /** The historical weeks start on four different Mondays. */
  lemma HistoricalStarts(firstId: Id)
    ensures UniqueStarts(HistoricalCakes(firstId))
  {
  }

  /** The historical weeks have four different ids. */
  lemma HistoricalWeekIds(firstId: Id)
    ensures UniqueWeekIds(HistoricalCakes(firstId))
  {
  }

  /** The historical weeks and tasks use only the twenty ids firstId .. firstId + 19. */
  lemma HistoricalIdRange(firstId: Id)
    ensures IdsAtLeast(HistoricalCakes(firstId), firstId)
    ensures IdsBelow(HistoricalCakes(firstId), firstId + 20)
  {
    FourWeeksRange(HistoricalCakes(firstId), firstId);
  }

  /** Four weeks of four tasks each, numbered in blocks of five from i: the week's id, then
      its tasks' ids. */
  lemma FourWeeksRange(ws: seq<Week>, i: Id)
    requires |ws| == 4
    requires forall k :: 0 <= k < 4 ==> ws[k].id == i + 5 * k && |ws[k].tasks| == 4
    requires forall k, j :: 0 <= k < 4 && 0 <= j < 4 ==> ws[k].tasks[j].id == i + 5 * k + 1 + j
    ensures IdsAtLeast(ws, i) && IdsBelow(ws, i + 20)
  {
    forall w | w in ws
      ensures i <= w.id < i + 20 && forall t :: t in w.tasks ==> i <= t.id < i + 20
    {
      var k :| 0 <= k < 4 && ws[k] == w;
      forall t | t in w.tasks
        ensures i <= t.id < i + 20
      {
        var j :| 0 <= j < 4 && w.tasks[j] == t;
      }
    }
  }

  // ---- ordering ------------------------------------------------------------

  /** `new Date(w.startDate).getTime()`: a 'YYYY-MM-DD' string parses as UTC midnight. */
  function TimeValue(w: Week): int {
    DaysFromCivil(w.startDate) * 86_400_000
  }

  /** A larger time value is a later start date, and equal time values are the same date. */
  lemma TimeValueOrder(a: Week, b: Week)
    ensures TimeValue(a) >= TimeValue(b) <==> !Before(a.startDate, b.startDate)
    ensures TimeValue(a) == TimeValue(b) <==> a.startDate == b.startDate
  {
    DaysFromCivilOrder(a.startDate, b.startDate);
    DaysFromCivilInjective(a.startDate, b.startDate);
  }

  /** Newest first by time value is newest first by calendar date. */
  lemma DescendingByDate(ws: seq<Week>)
    ensures Descending(ws, TimeValue) <==>
      forall i, j :: 0 <= i < j < |ws| ==> !Before(ws[i].startDate, ws[j].startDate)
  {
    forall i, j | 0 <= i < j < |ws|
      ensures TimeValue(ws[i]) >= TimeValue(ws[j]) <==> !Before(ws[i].startDate, ws[j].startDate)
    {
      TimeValueOrder(ws[i], ws[j]);
    }
  }

  // ---- seeding -------------------------------------------------------------

  /** The `some` test of `seedHistoricalData`: a week starts on 2026-01-12. */
  predicate HasHistory(ws: seq<Week>): (r: bool)
    ensures r <==> exists j :: 0 <= j < |ws| && ws[j].startDate == HistoryStart
  {
    AnyMeans(ws, StartsOn(HistoryStart));
    Any(ws, StartsOn(HistoryStart))
  }

  /** The weeks `seedHistoricalData` leaves in the store. */
  function Seeded(ws: seq<Week>, firstId: Id): seq<Week> {
    if HasHistory(ws) then ws else SortDescending(ws + HistoricalCakes(firstId), TimeValue)
  }

  /** Seeding keeps week ids distinct and every id below the counter once the twenty
      historical ids are drawn. */
  lemma SeedKeepsIdsFresh(ws: seq<Week>, firstId: Id)
    requires UniqueWeekIds(ws) && IdsBelow(ws, firstId)
    ensures UniqueWeekIds(Seeded(ws, firstId)) && IdsBelow(Seeded(ws, firstId), firstId + 20)
  {
    if !HasHistory(ws) {
      var hs := HistoricalCakes(firstId);
      var all := ws + hs;
      HistoricalIdRange(firstId);
      HistoricalWeekIds(firstId);
      AppendKeepsUniqueIds(ws, hs, firstId);
      assert IdsBelow(all, firstId + 20);
      SortPermutes(all, TimeValue);
      PermutedIdsUnique(all, Seeded(ws, firstId));
      PermutedIdsBelow(all, Seeded(ws, firstId), firstId + 20);
    }
  }

  /** `seedHistoricalData`: loads, returns early when the history is there, otherwise
      saves the stored weeks and the historical ones, sorted newest first. The twenty
      `generateId` calls of the `historicalCakes` literal draw the counter's next twenty
      ids, whether or not the history is saved. */
  method SeedHistoricalData(store: Store)
    modifies store
    ensures store.weeks == Seeded(old(store.weeks), old(store.nextId))
    ensures store.nextId == old(store.nextId) + 20
    ensures old(store.Valid()) ==> store.Valid()
  {
    var firstId := store.nextId;
    store.nextId := firstId + 20;
    if UniqueWeekIds(store.weeks) && IdsBelow(store.weeks, firstId) {
      SeedKeepsIdsFresh(store.weeks, firstId);
    }
    MergeHistory(store, firstId);
  }

  /** The load, the check and the sorted save of `seedHistoricalData`, with the
      historical ids drawn from firstId on. */
  method MergeHistory(store: Store, firstId: Id)
    modifies store`weeks
    ensures store.weeks == Seeded(old(store.weeks), firstId)
  {
    var data := store.weeks;
    if Any(data, StartsOn(HistoryStart)) {
      return;
    }
    var allWeeks := data + HistoricalCakes(firstId);
    var a := new Week[|allWeeks|](k requires 0 <= k < |allWeeks| => allWeeks[k]);
    assert a[..] == allWeeks;
    SortInPlace(a, TimeValue);
    store.weeks := a[..];
  }

  /** Already seeded: nothing changes. */
  lemma SeedNoOp(ws: seq<Week>, firstId: Id)
    requires exists k :: 0 <= k < |ws| && ws[k].startDate == HistoryStart
    ensures Seeded(ws, firstId) == ws
  {
  }

  /** Not yet seeded: the old weeks and the four historical ones, nothing else, newest first,
      with weeks starting on the same day in their order before the sort. */
  lemma SeedContents(ws: seq<Week>, firstId: Id, t: int)
    requires forall k :: 0 <= k < |ws| ==> ws[k].startDate != HistoryStart
    ensures var r := Seeded(ws, firstId);
      multiset(r) == multiset(ws) + multiset(HistoricalCakes(firstId)) &&
      |r| == |ws| + 4 &&
      Descending(r, TimeValue) &&
      Filter(r, KeyIs(TimeValue, t)) == Filter(ws + HistoricalCakes(firstId), KeyIs(TimeValue, t))
  {
    assert !HasHistory(ws);
    var all := ws + HistoricalCakes(firstId);
    SortPermutes(all, TimeValue);
    SortOrders(all, TimeValue);
    SortStable(all, TimeValue, t);
  }

  /** Seeding twice is seeding once, whatever ids the second run would draw. */
  lemma SeedIdempotent(ws: seq<Week>, firstId: Id, laterId: Id)
    ensures Seeded(Seeded(ws, firstId), laterId) == Seeded(ws, firstId)
  {
    var r := Seeded(ws, firstId);
    if !HasHistory(ws) {
      var all := ws + HistoricalCakes(firstId);
      var first := HistoricalCakes(firstId)[0];
      SortPermutes(all, TimeValue);
      assert all[|ws|] == first;
      assert first in multiset(r);
      var k :| 0 <= k < |r| && r[k] == first;
      assert HasHistory(r);
    }
  }
}
