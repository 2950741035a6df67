/** Import validation, the export value, and the share-link projection and decode.

    `JSON.parse`, `JSON.stringify`, `encodeURIComponent`, `btoa` and `atob` are not
    modelled as text: a parsed document is a `JsonValue`, and a share parameter is the
    payload it encodes (or the fact that it does not decode). */
module Codec {
  import opened Wrappers
  import opened Calendar
  import opened Weeks

  /** The `weeks` member of a parsed object, as `importData` tells its cases apart. */
  datatype WeeksMember = Absent | NotAnArray | WeekArray(items: seq<Week>)

  /** A parsed JSON value, as far as `importData` inspects it. */
  datatype JsonValue = JNull | JScalar | JArray | JObject(weeks: WeeksMember)

  /** `importData`'s validation: an object whose `weeks` is an array is accepted, an empty
      array included; null, scalars, arrays, a missing or non-array `weeks` and text that
      does not parse (`None`) are refused. */
  function ImportedWeeks(parsed: Option<JsonValue>): (r: Option<seq<Week>>)
    ensures r.Some? <==> parsed.Some? && parsed.value.JObject? && parsed.value.weeks.WeekArray?
    ensures r.Some? ==> r.value == parsed.value.weeks.items
  {
    match parsed
    case Some(JObject(WeekArray(items))) => Some(items)
    case _ => None
  }

  /** The document `exportData` serialises. */
  function ExportValue(ws: seq<Week>): (v: JsonValue)
    ensures ImportedWeeks(Some(v)) == Some(ws)
  {
    JObject(WeekArray(ws))
  }

  /** An export read back by import gives back the same weeks. */
  lemma ExportImportRoundTrip(ws: seq<Week>, v: JsonValue)
    ensures ImportedWeeks(Some(v)) == Some(ws) <==> v == ExportValue(ws)
  {
  }

  // ---- share links ---------------------------------------------------------

  datatype SharedTask = SharedTask(text: string, completed: bool)

  /** The decoded share payload; a member missing from it reads as `undefined`. */
  datatype ShareJson = ShareJson(
    startDate: Option<CivilDate>,
    endDate: Option<CivilDate>,
    cakeEmoji: Option<string>,
    tasks: Option<seq<SharedTask>>)

  /** A `share` parameter: the payload it decodes to, or a value on which `atob`,
      `decodeURIComponent` or `JSON.parse` throws, or which is not an object. */
  datatype ShareParam = Encoded(payload: ShareJson) | Undecodable

  datatype ShareLink = ShareLink(origin: string, share: ShareParam)

  /** `Partial<Week>` as `parseShareUrl` returns it: no week id. */
  datatype SharedWeek = SharedWeek(
    startDate: Option<CivilDate>,
    endDate: Option<CivilDate>,
    cakeEmoji: Option<string>,
    tasks: seq<Task>)

  /** The tasks without their ids. */
  function ShareTasks(ts: seq<Task>): (r: seq<SharedTask>)
    ensures |r| == |ts|
    ensures forall k :: 0 <= k < |ts| ==> r[k] == SharedTask(ts[k].text, ts[k].completed)
  {
    if ts == [] then [] else [SharedTask(ts[0].text, ts[0].completed)] + ShareTasks(ts[1..])
  }

  /** `generateShareUrl`: the week's dates, emoji and (text, completed) pairs, ids dropped. */
  function GenerateShareUrl(origin: string, w: Week): (link: ShareLink)
    ensures link.origin == origin
    ensures forall firstId: Id :: var r := ParseShareUrl(link.share, firstId);
      r.Some? && r.value.startDate == Some(w.startDate) && r.value.endDate == Some(w.endDate) &&
      r.value.cakeEmoji == Some(w.cakeEmoji) && ShareTasks(r.value.tasks) == ShareTasks(w.tasks)
  {
    ShareLink(origin, Encoded(ShareJson(Some(w.startDate), Some(w.endDate), Some(w.cakeEmoji),
                                        Some(ShareTasks(w.tasks)))))
  }

  /** The shared tasks with ids firstId, firstId + 1, ... drawn from the id supply. */
  function FreshTasks(sts: seq<SharedTask>, firstId: Id): (r: seq<Task>)
    ensures |r| == |sts|
    ensures forall k :: 0 <= k < |sts| ==> r[k] == Task(firstId + k, sts[k].text, sts[k].completed)
  {
    if sts == [] then []
    else [Task(firstId, sts[0].text, sts[0].completed)] + FreshTasks(sts[1..], firstId + 1)
  }

  /** `parseShareUrl`: `null` when the parameter does not decode or has no task list
      (`decoded.tasks.map` throws); otherwise the payload with new task ids. */
  function ParseShareUrl(param: ShareParam, firstId: Id): (r: Option<SharedWeek>)
    ensures r.None? <==> param.Undecodable? || param.payload.tasks.None?
    ensures r.Some? ==>
      r.value.startDate == param.payload.startDate && r.value.endDate == param.payload.endDate &&
      r.value.cakeEmoji == param.payload.cakeEmoji &&
      ShareTasks(r.value.tasks) == param.payload.tasks.value
  {
    match param
    case Undecodable => None
    case Encoded(json) =>
      match json.tasks
      case None => None
      case Some(sts) =>
        var ts := FreshTasks(sts, firstId);
        assert ShareTasks(ts) == sts;
        Some(SharedWeek(json.startDate, json.endDate, json.cakeEmoji, ts))
  }

  /** Share round trip: the same dates, emoji and (text, completed) pairs in the same
      order, the tasks under new ids, and no week id. */
  lemma ShareRoundTrip(origin: string, w: Week, firstId: Id)
    ensures var r := ParseShareUrl(GenerateShareUrl(origin, w).share, firstId);
      r.Some? &&
      r.value.startDate == Some(w.startDate) && r.value.endDate == Some(w.endDate) &&
      r.value.cakeEmoji == Some(w.cakeEmoji) &&
      ShareTasks(r.value.tasks) == ShareTasks(w.tasks) &&
      forall k :: 0 <= k < |r.value.tasks| ==> r.value.tasks[k].id == firstId + k
  {
  }

  /** Ids drawn above every id of the document collide with none of its tasks. */
  lemma SharedIdsAreFresh(ws: seq<Week>, param: ShareParam, firstId: Id)
    requires IdsBelow(ws, firstId)
    ensures var r := ParseShareUrl(param, firstId);
      r.Some? ==> forall t, w, u :: t in r.value.tasks && w in ws && u in w.tasks ==> t.id != u.id
  {
  }
}
