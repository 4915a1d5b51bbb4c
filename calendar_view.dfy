/** The calendar page's state object: the month on view, the date whose modal is open, the
    event being edited, the event index and its storage, and the modal form's fields. */
module CalendarView {
  import opened Wrappers
  import opened Text
  import opened Gregorian
  import opened EventStore
  import opened Html

  /** `navigateMonth(delta)` on a (year, month) pair: a month that leaves 0..11 becomes 11 with the
      year before or 0 with the year after. */
  function StepMonth(y: int, m0: int, delta: int): (r: (int, int))
    ensures 0 <= r.1 <= 11
    ensures 0 <= m0 + delta <= 11 ==> r == (y, m0 + delta)
    ensures 0 <= m0 <= 11 && delta == 1 ==> r == NextMonth(y, m0)
    ensures 0 <= m0 <= 11 && delta == -1 ==> r == PrevMonth(y, m0)
  {
    var m := m0 + delta;
    if m < 0 then (y - 1, 11)
    else if m > 11 then (y + 1, 0)
    else (y, m)
  }

  /** One month forward and one back, or back and forward, is where one started. */
  lemma StepMonthRoundTrip(y: int, m0: int)
    requires 0 <= m0 <= 11
    ensures var (ny, nm) := StepMonth(y, m0, 1); StepMonth(ny, nm, -1) == (y, m0)
    ensures var (py, pm) := StepMonth(y, m0, -1); StepMonth(py, pm, 1) == (y, m0)
  {
  }

  /** `k` steps forward advance `12 * y + m` by `k`, the month staying in 0..11. */
  lemma {:induction false} StepMonthTwelve(y: int, m0: int, k: nat)
    requires 0 <= m0 <= 11
    ensures var (yk, mk) := Steps(y, m0, k); 12 * yk + mk == 12 * y + m0 + k && 0 <= mk <= 11
  {
    if k > 0 {
      StepMonthTwelve(y, m0, k - 1);
    }
  }

  /** Twelve steps forward advance the year by one and keep the month. */
  lemma TwelveStepsNextYear(y: int, m0: int)
    requires 0 <= m0 <= 11
    ensures Steps(y, m0, 12) == (y + 1, m0)
  {
    StepMonthTwelve(y, m0, 12);
    var (yk, mk) := Steps(y, m0, 12);
    assert 12 * (yk - y - 1) == m0 - mk;
  }

  /** `k` presses of the next-month button. */
  function Steps(y: int, m0: int, k: nat): (int, int) {
    if k == 0 then (y, m0) else var (py, pm) := Steps(y, m0, k - 1); StepMonth(py, pm, 1)
  }

  /** `escapeHTML`: five chained global replacements, `&` first, which together escape each
      character once, the apostrophe as `&#039;`; the result reads back as the input. */
  function EscapeHTML(s: string): (r: string)
    ensures r == Escape(s, AposPadded)
    ensures Unescape(r, AposPadded) == s
    ensures NoneIn(r, {'<', '>', '"', '\''})
  {
    ReplaceChainIsEscape(s);
    UnescapeEscape(s, AposPadded);
    ReplaceChain(s)
  }

  /** The bucket step of `onSaveEvent`: the event being edited gets the new title and notes in
      place (nothing changes when its id is gone), or a new event is pushed at the end. */
  method SaveIntoBucket(list: seq<Event>, editingId: Option<int>, title: string, notes: string, now: int)
    returns (r: seq<Event>)
    ensures r == SavedBucket(list, editingId, title, notes, now)
  {
    r := list;
    if Editing(editingId) {
      var i := FindIndex(r, editingId.value);
      if i != -1 {
        r := r[i := r[i].(title := title, notes := notes)];
      }
    } else {
      r := r + [Event(now, title, notes)];
    }
  }

  class CalendarSession {
    var viewYear: int
    var viewMonth: int
    /** The date whose modal is open. */
    var modalISO: Option<string>
    /** The id of the event being edited. */
    var editingId: Option<int>
    var eventsByDate: Index
    var storage: Storage
    /** The modal form: date, event id (`""` is `None`), title and notes. */
    var formISO: string
    var formId: Option<int>
    var formTitle: string
    var formNotes: string

    predicate Valid()
      reads this
    {
      0 <= viewMonth <= 11
    }

    /** `init`: load the index, show the month of the clock's date. */
    constructor (stored: Storage, nowYear: int, nowMonth: int)
      requires 0 <= nowMonth <= 11
      ensures Valid()
      ensures viewYear == nowYear && viewMonth == nowMonth
      ensures eventsByDate == LoadEvents(stored) && storage == stored
      ensures modalISO == None && editingId == None
      ensures formISO == "" && formId == None && formTitle == "" && formNotes == ""
    {
      viewYear, viewMonth := nowYear, nowMonth;
      modalISO, editingId := None, None;
      eventsByDate := LoadEvents(stored);
      storage := stored;
      formISO, formId, formTitle, formNotes := "", None, "", "";
    }

    /** `navigateMonth(delta)`. */
    method NavigateMonth(delta: int)
      requires Valid()
      modifies this`viewYear, this`viewMonth
      ensures Valid()
      ensures (viewYear, viewMonth) == StepMonth(old(viewYear), old(viewMonth), delta)
      ensures delta == 1 ==> (viewYear, viewMonth) == NextMonth(old(viewYear), old(viewMonth))
      ensures delta == -1 ==> (viewYear, viewMonth) == PrevMonth(old(viewYear), old(viewMonth))
    {
      var m, y := viewMonth + delta, viewYear;
      if m < 0 {
        m, y := 11, y - 1;
      }
      if m > 11 {
        m, y := 0, y + 1;
      }
      viewMonth, viewYear := m, y;
    }

    /** `openModal(iso)`: the modal shows `iso` with an empty form and nothing being edited. */
    method OpenModal(iso: string)
      modifies this`modalISO, this`editingId, this`formISO, this`formId, this`formTitle, this`formNotes
      ensures modalISO == Some(iso) && editingId == None
      ensures formISO == iso && formId == None && formTitle == "" && formNotes == ""
    {
      modalISO, editingId := Some(iso), None;
      formISO, formId := iso, None;
      formTitle, formNotes := "", "";
    }

    /** `hideModal`: closes the modal; the events, the storage and the form stay as they are. */
    method HideModal()
      modifies this`modalISO, this`editingId
      ensures modalISO == None && editingId == None
    {
      modalISO, editingId := None, None;
    }

    /** `startEditEvent(iso, id)`: when the bucket of `iso` holds `id`, the form is filled from the
        first event with that id and that id is being edited; otherwise nothing changes. */
    method StartEditEvent(iso: string, id: int)
      modifies this`editingId, this`formISO, this`formId, this`formTitle, this`formNotes
      ensures var list := Bucket(eventsByDate, iso);
        if HasId(list, id) then
          var e := list[FindIndex(list, id)];
          editingId == Some(id) && formId == Some(id) && formISO == iso &&
          formTitle == e.title && formNotes == e.notes
        else
          editingId == old(editingId) && formISO == old(formISO) && formId == old(formId) &&
          formTitle == old(formTitle) && formNotes == old(formNotes)
    {
      var list := Bucket(eventsByDate, iso);
      var i := FindIndex(list, id);
      if i == -1 {
        return;
      }
      var e := list[i];
      editingId := Some(id);
      formId := Some(id);
      formISO := iso;
      formTitle := e.title;
      formNotes := e.notes;
    }

    /** `onSaveEvent`, with `now` the value of `Date.now()`. A title that trims to nothing
        changes nothing. Otherwise the trimmed title and notes are saved (see `SaveTrimmed`). */
    method OnSaveEvent(now: int)
      modifies this`eventsByDate, this`storage, this`editingId, this`formId, this`formTitle, this`formNotes
      ensures var title, notes := Trim(old(formTitle)), Trim(old(formNotes));
        if title == [] then
          eventsByDate == old(eventsByDate) && storage == old(storage) && editingId == old(editingId) &&
          formId == old(formId) && formTitle == old(formTitle) && formNotes == old(formNotes)
        else
          eventsByDate == old(eventsByDate)[formISO :=
            SavedBucket(Bucket(old(eventsByDate), formISO), old(editingId), title, notes, now)] &&
          storage == PersistEvents(old(storage), eventsByDate) &&
          editingId == None && formId == None && formTitle == "" && formNotes == ""
    {
      var title := Trim(formTitle);
      var notes := Trim(formNotes);
      if title == [] {
        return;
      }
      SaveTrimmed(title, notes, now);
    }

    /** The second half of `onSaveEvent`, once the title is known not to be empty: the form's
        bucket becomes the saved bucket (even when the id being edited is gone from it), the
        whole index is written to storage, and the edit and the form are cleared. Ids stay
        distinct when a new event's stamp is not already in its bucket. */
    method SaveTrimmed(title: string, notes: string, now: int)
      modifies this`eventsByDate, this`storage, this`editingId, this`formId, this`formTitle, this`formNotes
      ensures eventsByDate == old(eventsByDate)[formISO :=
        SavedBucket(Bucket(old(eventsByDate), formISO), old(editingId), title, notes, now)]
      ensures storage == PersistEvents(old(storage), eventsByDate)
      ensures editingId == None && formId == None && formTitle == "" && formNotes == ""
      ensures (IdsUnique(old(eventsByDate)) &&
               (!Editing(old(editingId)) ==> !HasId(Bucket(old(eventsByDate), formISO), now))) ==>
              IdsUnique(eventsByDate)
      ensures (IdsUniqueAcross(old(eventsByDate)) &&
               (!Editing(old(editingId)) ==> !IdInIndex(old(eventsByDate), now))) ==>
              IdsUniqueAcross(eventsByDate)
    {
      var iso := formISO;
      var list := SaveIntoBucket(Bucket(eventsByDate, iso), editingId, title, notes, now);
      if IdsUnique(eventsByDate) && (!Editing(editingId) ==> !HasId(Bucket(eventsByDate, iso), now)) {
        SavedBucketKeepsIdsUnique(Bucket(eventsByDate, iso), editingId, title, notes, now);
      }
      if IdsUniqueAcross(eventsByDate) && (!Editing(editingId) ==> !IdInIndex(eventsByDate, now)) {
        SaveKeepsIdsUniqueAcross(eventsByDate, iso, editingId, title, notes, now);
      }
      eventsByDate := eventsByDate[iso := list];
      storage := PersistEvents(storage, eventsByDate);
      ClearForm();
    }

    /** `deleteEvent(iso, id)`: every event with that id leaves that bucket, the rest keep their
        order, and the index is persisted. The edit in progress is not cleared. */
    method DeleteEvent(iso: string, id: int)
      modifies this`eventsByDate, this`storage
      ensures eventsByDate == old(eventsByDate)[iso := RemoveId(Bucket(old(eventsByDate), iso), id)]
      ensures storage == PersistEvents(old(storage), eventsByDate)
      ensures IdsUnique(old(eventsByDate)) ==> IdsUnique(eventsByDate)
      ensures IdsUniqueAcross(old(eventsByDate)) ==> IdsUniqueAcross(eventsByDate)
    {
      var list := Bucket(eventsByDate, iso);
      if IdsUnique(eventsByDate) {
        RemoveKeepsIdsUnique(list, id);
      }
      if IdsUniqueAcross(eventsByDate) {
        DeleteKeepsIdsUniqueAcross(eventsByDate, iso, id);
      }
      eventsByDate := eventsByDate[iso := RemoveId(list, id)];
      storage := PersistEvents(storage, eventsByDate);
    }

    /** `onDeleteEvent`: with no event id in the form (empty, or 0) nothing happens; otherwise
        that event is deleted from the form's date and the edit and the form are cleared. */
    method OnDeleteEvent()
      modifies this`eventsByDate, this`storage, this`editingId, this`formId, this`formTitle, this`formNotes
      ensures !Editing(old(formId)) ==>
        eventsByDate == old(eventsByDate) && storage == old(storage) && editingId == old(editingId) &&
        formId == old(formId) && formTitle == old(formTitle) && formNotes == old(formNotes)
      ensures Editing(old(formId)) ==>
        eventsByDate == old(eventsByDate)[formISO := RemoveId(Bucket(old(eventsByDate), formISO), old(formId).value)] &&
        storage == PersistEvents(old(storage), eventsByDate) &&
        editingId == None && formId == None && formTitle == "" && formNotes == ""
    {
      var iso := formISO;
      var id := if formId.Some? then formId.value else 0;
      if id == 0 {
        return;
      }
      DeleteEvent(iso, id);
      ClearForm();
    }

    /** How both handlers end: no edit in progress and an empty form. */
    method ClearForm()
      modifies this`editingId, this`formId, this`formTitle, this`formNotes
      ensures editingId == None && formId == None && formTitle == "" && formNotes == ""
    {
      editingId := None;
      formId, formTitle, formNotes := None, "", "";
    }
  }
}
