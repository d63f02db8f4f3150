/** The personal calendar page: the saved entries, the entry opened in the
    detail dialog and the date/time editor inside it. */
module MyCalendar {
  import opened Wrappers
  import opened Sequences
  import EventCategory

  /** `CalendarEvent`: one saved entry as the page holds it. */
  datatype CalendarEvent = CalendarEvent(
    id: string,
    title: string,
    date: string,
    time: Option<string>,
    place: string,
    category: string)

  /** `categoryColors`. */
  const CategoryColors: map<string, string> := map[
    "대중음악" := "#9333ea", "클래식" := "#3b82f6", "무용" := "#ec4899",
    "뮤지컬" := "#eab308", "영화" := "#ef4444", "개그쇼" := "#22c55e", "기타" := "#6b7280"
  ]

  /** `categoryColors[category] || categoryColors["기타"]`. */
  function ColorOf(category: string): (color: string)
    ensures category in CategoryColors ==> color == CategoryColors[category]
    ensures category !in CategoryColors ==> color == "#6b7280"
    ensures color in CategoryColors.Values
  {
    assert forall c | c in CategoryColors :: CategoryColors[c] != "";
    assert "기타" in CategoryColors && CategoryColors["기타"] == "#6b7280";
    if category in CategoryColors && CategoryColors[category] != "" then CategoryColors[category]
    else CategoryColors["기타"]
  }

  /** Every category the detail page can assign has its own colour here, and
      no other category does. */
  lemma ColorsCoverCategories()
    ensures CategoryColors.Keys == EventCategory.CategoryNames
  {
  }

  /** How long every entry lasts on the calendar: two hours, in ms. */
  const EventDurationMs: int := 2 * 60 * 60 * 1000

  /** One block on the calendar. */
  datatype CalendarEntry = CalendarEntry(event: CalendarEvent, start: int, end: int)

  /** `calendarEvents`: each entry from its start instant (`new Date(date)`,
      passed in as `startOf`) to two hours later. */
  function CalendarEntries(events: seq<CalendarEvent>, startOf: string -> int): (r: seq<CalendarEntry>)
    ensures |r| == |events|
    ensures forall i :: 0 <= i < |r| ==>
              r[i].event == events[i] && r[i].start == startOf(events[i].date)
              && r[i].end == r[i].start + 7200000
  {
    seq(|events|, i requires 0 <= i < |events| =>
      CalendarEntry(events[i], startOf(events[i].date), startOf(events[i].date) + EventDurationMs))
  }

  /** `selectedEvent.time || ""`. */
  function TimeOrEmpty(time: Option<string>): string {
    match time
    case None => ""
    case Some(t) => t
  }

  /** The list `handleEditSave` stores: the entries with id `id` get the new
      date and time, every other entry and every other field stays. */
  function WithEdit(events: seq<CalendarEvent>, id: string, date: string, time: string): (r: seq<CalendarEvent>)
    ensures |r| == |events|
    ensures forall i :: 0 <= i < |r| ==>
              r[i].id == events[i].id && r[i].title == events[i].title
              && r[i].place == events[i].place && r[i].category == events[i].category
    ensures forall i :: 0 <= i < |r| && events[i].id == id ==> r[i].date == date && r[i].time == Some(time)
    ensures forall i :: 0 <= i < |r| && events[i].id != id ==> r[i] == events[i]
  {
    seq(|events|, i requires 0 <= i < |events| =>
      if events[i].id == id then events[i].(date := date, time := Some(time)) else events[i])
  }

  /** The list `handleDelete` stores: the entries with id `id` go, the rest
      stay in order. */
  function WithoutId(events: seq<CalendarEvent>, id: string): (r: seq<CalendarEvent>)
    ensures forall e :: multiset(r)[e] == if e.id == id then 0 else multiset(events)[e]
    ensures IsSubsequence(r, events)
  {
    if events == [] then []
    else
      var rest := WithoutId(events[1..], id);
      assert events == [events[0]] + events[1..];
      assert multiset(events) == multiset{events[0]} + multiset(events[1..]);
      if events[0].id == id then
        assert rest != [] ==> rest[0] in multiset(rest);
        rest
      else
        assert multiset([events[0]] + rest) == multiset{events[0]} + multiset(rest);
        assert ([events[0]] + rest)[1..] == rest;
        [events[0]] + rest
  }

  /** Deleting an entry after editing it leaves what deleting it straight
      away leaves. */
  lemma {:induction false} DeleteAfterEdit(events: seq<CalendarEvent>, id: string, date: string, time: string)
    ensures WithoutId(WithEdit(events, id, date, time), id) == WithoutId(events, id)
  {
    if events != [] {
      var edited := WithEdit(events, id, date, time);
      assert edited[1..] == WithEdit(events[1..], id, date, time);
      DeleteAfterEdit(events[1..], id, date, time);
      if events[0].id != id {
        assert edited[0] == events[0];
      }
    }
  }

  /** The page's React state. */
  class CalendarPage {
    var events: seq<CalendarEvent>
    var selectedEvent: Option<CalendarEvent>
    var editingId: Option<string>
    var editDate: string
    var editTime: string

    /** The page right after `useEvents` delivered `loaded`. */
    constructor(loaded: seq<CalendarEvent>)
      ensures events == loaded && selectedEvent == None && editingId == None
      ensures editDate == "" && editTime == ""
    {
      events := loaded;
      selectedEvent := None;
      editingId := None;
      editDate := "";
      editTime := "";
    }

    /** `handleSelectEvent`: a click on an entry opens it. */
    method SelectEvent(e: CalendarEvent)
      modifies this
      ensures selectedEvent == Some(e)
      ensures events == old(events) && editingId == old(editingId)
      ensures editDate == old(editDate) && editTime == old(editTime)
    {
      selectedEvent := Some(e);
    }

    /** `handleEditStart`. */
    method EditStart()
      modifies this
      ensures old(selectedEvent).None? ==>
                editingId == old(editingId) && editDate == old(editDate) && editTime == old(editTime)
      ensures old(selectedEvent).Some? ==>
                var e := old(selectedEvent).value;
                editingId == Some(e.id) && editDate == e.date && editTime == TimeOrEmpty(e.time)
      ensures events == old(events) && selectedEvent == old(selectedEvent)
    {
      if selectedEvent.None? {
        return;
      }
      var e := selectedEvent.value;
      editingId := Some(e.id);
      editDate := e.date;
      editTime := TimeOrEmpty(e.time);
    }

    /** The date input's `onChange`: `setEditDate(e.target.value)`. */
    method SetEditDate(value: string)
      modifies this
      ensures editDate == value
      ensures events == old(events) && selectedEvent == old(selectedEvent)
      ensures editingId == old(editingId) && editTime == old(editTime)
    {
      editDate := value;
    }

    /** The time input's `onChange`: `setEditTime(e.target.value)`. */
    method SetEditTime(value: string)
      modifies this
      ensures editTime == value
      ensures events == old(events) && selectedEvent == old(selectedEvent)
      ensures editingId == old(editingId) && editDate == old(editDate)
    {
      editTime := value;
    }

    /** `handleEditSave`; `!editingId` also holds for an empty id. */
    method EditSave()
      modifies this
      ensures (old(editingId) == None || old(editingId) == Some("")) ==>
                events == old(events) && selectedEvent == old(selectedEvent) && editingId == old(editingId)
      ensures old(editingId).Some? && old(editingId).value != "" ==>
                events == WithEdit(old(events), old(editingId).value, old(editDate), old(editTime))
                && editingId == None && selectedEvent == None
      ensures editDate == old(editDate) && editTime == old(editTime)
    {
      if editingId.None? || editingId.value == "" {
        return;
      }
      events := WithEdit(events, editingId.value, editDate, editTime);
      editingId := None;
      selectedEvent := None;
    }

    /** `handleEditCancel`. */
    method EditCancel()
      modifies this
      ensures editingId == None && editDate == "" && editTime == ""
      ensures events == old(events) && selectedEvent == old(selectedEvent)
    {
      editingId := None;
      editDate := "";
      editTime := "";
    }

    /** `handleDelete`; the editor state is left as it was. */
    method Delete()
      modifies this
      ensures old(selectedEvent).None? ==> events == old(events) && selectedEvent == None
      ensures old(selectedEvent).Some? ==>
                events == WithoutId(old(events), old(selectedEvent).value.id) && selectedEvent == None
      ensures editingId == old(editingId) && editDate == old(editDate) && editTime == old(editTime)
    {
      if selectedEvent.None? {
        return;
      }
      events := WithoutId(events, selectedEvent.value.id);
      selectedEvent := None;
    }

    /** `handleCloseModal`. */
    method CloseModal()
      modifies this
      ensures selectedEvent == None && editingId == None && editDate == "" && editTime == ""
      ensures events == old(events)
    {
      selectedEvent := None;
      editingId := None;
      editDate := "";
      editTime := "";
    }
  }
}
