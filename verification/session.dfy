/**
  The edit session of the note page (src/pages/note.jsx): the component's
  state, the handlers that change it, the autosave effect that reacts to the
  debounced body, and the callbacks that run when a store call settles.

  React state is a snapshot per render, so each handler is a function from the
  snapshot it closed over to the next snapshot and the store call it asks for,
  if any. Store calls are `Request` values; their completions are `Event`s.
 */
module EditSession {
  import opened Wrappers
  import opened NoteLookup
  import opened EmailShape

  const InvalidEmailMessage: string := "Please enter a valid email address."
  const EmailRequiredMessage: string := "Email is required."
  const DateRequiredMessage: string := "Date and time are required."

  /**
    The component's state, plus `debouncedBody`: the value the debounce hook
    last produced, which is what the autosave effect watches. `lastUpdated` is
    an opaque timestamp.
   */
  datatype Session = Session(
    currentNote: Option<Note>,
    heading: string,
    body: string,
    debouncedBody: string,
    lastUpdated: nat,
    isModalOpen: bool,
    email: string,
    emailError: string,
    dateTime: string,
    dateError: string)

  /** What the query hooks report while a handler runs: the note list (absent until loaded) and the in-flight flags. */
  datatype StoreView = StoreView(notes: Option<seq<Note>>, isCreating: bool, isUpdating: bool, isDeleting: bool)

  /** The guard of the edit and delete handlers: some note mutation has not settled yet. */
  predicate MutationInFlight(view: StoreView)
  {
    view.isUpdating || view.isDeleting || view.isCreating
  }

  /**
    A store call. `DeleteNote` also carries `currentAtClick`, the `currentNote`
    that its success callback closed over; it is not sent to the store.
   */
  datatype Request =
    | CreateNote(heading: string, body: string)
    | UpdateNote(id: NoteId, heading: string, body: string)
    | DeleteNote(id: NoteId, currentAtClick: Option<Note>)
    | CreateReminder(noteId: NoteId, reminderDate: string, email: string)

  /** The rule that no note is written without a heading, and none is created without a body. */
  predicate GuardedWrite(req: Request)
  {
    match req
    case CreateNote(heading, body) => heading != "" && body != ""
    case UpdateNote(_, heading, _) => heading != ""
    case _ => true
  }

  /** The state of a freshly mounted page at time `now`. */
  function Initial(now: nat): Session
  {
    Session(None, "", "", "", now, false, "", "", "", "")
  }

  /** The body of the autosave effect, run against the snapshot `s`. */
  function AutosaveEffect(s: Session): Option<Request>
  {
    if s.currentNote.None? then
      if s.debouncedBody != "" && s.heading != "" then Some(CreateNote(s.heading, s.debouncedBody)) else None
    else
      if s.debouncedBody != "" && s.heading != "" then Some(UpdateNote(s.currentNote.value.id, s.heading, s.body)) else None
  }

  /** Mounting the page: the effect runs once with the empty debounced body. */
  function Mount(now: nat): (r: (Session, Option<Request>))
    ensures r.0.currentNote.None? && r.0.heading == "" && r.0.body == "" && r.0.lastUpdated == now
    ensures r.0.debouncedBody == "" && !r.0.isModalOpen
    ensures r.0.email == "" && r.0.emailError == "" && r.0.dateTime == "" && r.0.dateError == ""
    ensures r.1.None?
  {
    (Initial(now), AutosaveEffect(Initial(now)))
  }

  /**
    The debounce hook produces `value`. The effect re-runs only when that value
    differs from the one it last saw; it then creates a note when there is no
    current note and updates the current note otherwise, and does nothing while
    the heading or the debounced body is empty. An update sends the live body.
   */
  function OnBodySettled(s: Session, value: string): (r: (Session, Option<Request>))
    ensures r.0 == s.(debouncedBody := value)
    ensures r.1.Some? <==> value != s.debouncedBody && value != "" && s.heading != ""
    ensures r.1.Some? && s.currentNote.None? ==> r.1.value == CreateNote(s.heading, value)
    ensures r.1.Some? && s.currentNote.Some? ==> r.1.value == UpdateNote(s.currentNote.value.id, s.heading, s.body)
  {
    var next := s.(debouncedBody := value);
    if value == s.debouncedBody then (next, None) else (next, AutosaveEffect(next))
  }

  /** A create settled: the returned note becomes the current note and the save time is refreshed. */
  function OnCreateSucceeded(s: Session, created: Note, now: nat): (r: Session)
    ensures r.currentNote == Some(created) && r.lastUpdated == now
    ensures r.(currentNote := s.currentNote, lastUpdated := s.lastUpdated) == s
  {
    s.(lastUpdated := now, currentNote := Some(created))
  }

  /** An update settled: only the save time changes. */
  function OnUpdateSucceeded(s: Session, now: nat): (r: Session)
    ensures r.lastUpdated == now && r.(lastUpdated := s.lastUpdated) == s
  {
    s.(lastUpdated := now)
  }

  /** "New note": empty heading and body and no current note; the save time is kept. */
  function NewNote(s: Session): (r: Session)
    ensures r.currentNote.None? && r.heading == "" && r.body == ""
    ensures r.(currentNote := s.currentNote, heading := s.heading, body := s.body) == s
  {
    s.(heading := "", body := "", currentNote := None)
  }

  /**
    "Edit": ignored while a mutation is in flight or when no listed note has the
    id; otherwise the first note with the id becomes the current note and its
    heading and body are loaded. No store call is made.
   */
  function Edit(s: Session, view: StoreView, id: NoteId): (r: Session)
    ensures MutationInFlight(view) || GetNoteWithId(view.notes, id).None? ==> r == s
    ensures !MutationInFlight(view) && GetNoteWithId(view.notes, id).Some? ==>
      && r.currentNote == GetNoteWithId(view.notes, id)
      && r.heading == r.currentNote.value.heading && r.body == r.currentNote.value.body
      && r.(currentNote := s.currentNote, heading := s.heading, body := s.body) == s
  {
    if MutationInFlight(view) then s
    else
      match GetNoteWithId(view.notes, id)
      case None => s
      case Some(note) => s.(currentNote := Some(note), heading := note.heading, body := note.body)
  }

  /**
    "Delete": ignored while a mutation is in flight or when no listed note has
    the id; otherwise one delete call for that id. The session is unchanged.
   */
  function Delete(s: Session, view: StoreView, id: NoteId): (r: Option<Request>)
    ensures r.Some? <==> !MutationInFlight(view) && view.notes.Some? && HasNoteWithId(view.notes.value, id)
    ensures r.Some? ==> r.value == DeleteNote(id, s.currentNote)
  {
    if MutationInFlight(view) then None
    else
      match GetNoteWithId(view.notes, id)
      case None => None
      case Some(note) => Some(DeleteNote(note.id, s.currentNote))
  }

  /**
    A delete settled. The callback compares the deleted id with the id of the
    note that was current when Delete was clicked, and resets the session as
    "New note" does when they are equal. When no note was current the callback
    fails on the missing note before resetting anything, so nothing changes.
   */
  function OnDeleteSucceeded(s: Session, id: NoteId, currentAtClick: Option<Note>): (r: Session)
    ensures currentAtClick.Some? && currentAtClick.value.id == id ==> r == NewNote(s)
    ensures !(currentAtClick.Some? && currentAtClick.value.id == id) ==> r == s
  {
    match currentAtClick
    case None => s
    case Some(current) => if current.id == id then NewNote(s) else s
  }

  /** The bell and the Cancel button flip the modal, whether or not a note is current. */
  function ToggleModal(s: Session): (r: Session)
    ensures r.isModalOpen != s.isModalOpen && r.(isModalOpen := s.isModalOpen) == s
  {
    s.(isModalOpen := !s.isModalOpen)
  }

  /** Typing an email stores it and sets the error exactly when the address-shape check fails. */
  function EmailChanged(s: Session, value: string): (r: Session)
    ensures r.email == value
    ensures r.emailError == "" <==> IsLocalAtDomain(value)
    ensures r.emailError != "" ==> r.emailError == InvalidEmailMessage
    ensures r.(email := s.email, emailError := s.emailError) == s
  {
    RegexTestIsLocalAtDomain(value);
    s.(email := value, emailError := if EmailRegexTest(value) then "" else InvalidEmailMessage)
  }

  /** Typing a date stores it and clears the date error. */
  function DateTimeChanged(s: Session, value: string): (r: Session)
    ensures r.dateTime == value && r.dateError == ""
    ensures r.(dateTime := s.dateTime, dateError := s.dateError) == s
  {
    s.(dateTime := value, dateError := "")
  }

  /**
    The reminder form is submitted: the email counts as missing only when both
    the field and its error are empty, and the date must be present.
   */
  predicate ReminderFormPasses(s: Session)
  {
    !(s.emailError == "" && s.email == "") && s.dateTime != ""
  }

  /**
    "Confirm" on the reminder form. It reads `currentNote.id` only when the form
    passes, so that is when a current note is needed.
   */
  function Submit(s: Session): (r: (Session, Option<Request>))
    requires ReminderFormPasses(s) ==> s.currentNote.Some?
    ensures r.1.Some? <==> s.dateTime != "" && (s.email != "" || s.emailError != "")
    ensures r.1.Some? ==> r.1.value == CreateReminder(s.currentNote.value.id, s.dateTime, s.email)
    ensures r.0.isModalOpen == (if r.1.Some? then !s.isModalOpen else s.isModalOpen)
    ensures r.0.emailError == (if s.emailError == "" && s.email == "" then EmailRequiredMessage else s.emailError)
    ensures r.0.dateError == (if s.dateTime == "" then DateRequiredMessage else "")
    ensures r.0.(isModalOpen := s.isModalOpen, emailError := s.emailError, dateError := s.dateError) == s
  {
    var emailError := if s.emailError == "" && s.email == "" then EmailRequiredMessage else s.emailError;
    var dateError := if s.dateTime == "" then DateRequiredMessage else "";
    var checked := s.(emailError := emailError, dateError := dateError);
    if ReminderFormPasses(s) then
      (checked.(isModalOpen := !s.isModalOpen), Some(CreateReminder(s.currentNote.value.id, s.dateTime, s.email)))
    else
      (checked, None)
  }

  /** `handleSubmit` as written: each check clears a local `isValid` flag. */
  method HandleSubmit(s: Session) returns (next: Session, request: Option<Request>)
    requires ReminderFormPasses(s) ==> s.currentNote.Some?
    ensures (next, request) == Submit(s)
  {
    var isValid := true;
    next := s;
    if s.emailError == "" && s.email == "" {
      next := next.(emailError := EmailRequiredMessage);
      isValid := false;
    }
    if s.dateTime == "" {
      next := next.(dateError := DateRequiredMessage);
      isValid := false;
    } else {
      next := next.(dateError := "");
    }
    request := None;
    if isValid {
      request := Some(CreateReminder(s.currentNote.value.id, s.dateTime, s.email));
      next := next.(isModalOpen := !s.isModalOpen);
    }
  }

  /** Everything that can happen to the page: user input, the debounce hook, and settled store calls. */
  datatype Event =
    | HeadingTyped(value: string)
    | BodyTyped(value: string)
    | BodySettled(value: string)
    | NewNoteClicked
    | EditClicked(id: NoteId)
    | DeleteClicked(id: NoteId)
    | ModalToggled
    | EmailTyped(value: string)
    | DateTimeTyped(value: string)
    | ConfirmClicked
    | CreateNoteSucceeded(created: Note, now: nat)
    | UpdateNoteSucceeded(now: nat)
    | DeleteNoteSucceeded(id: NoteId, currentAtClick: Option<Note>)
    | ReminderCreated
    | CallFailed(call: Request)

  /** An event the page can handle without failing: Confirm needs a current note when the form passes. */
  predicate Allowed(s: Session, e: Event)
  {
    e.ConfirmClicked? ==> (ReminderFormPasses(s) ==> s.currentNote.Some?)
  }

  /** One event: the next session and the store call it asks for, if any. */
  function Step(s: Session, view: StoreView, e: Event): (r: (Session, Option<Request>))
    requires Allowed(s, e)
    ensures r.1.Some? ==> GuardedWrite(r.1.value)
  {
    match e
    case HeadingTyped(value) => (s.(heading := value), None)
    case BodyTyped(value) => (s.(body := value), None)
    case BodySettled(value) => OnBodySettled(s, value)
    case NewNoteClicked => (NewNote(s), None)
    case EditClicked(id) => (Edit(s, view, id), None)
    case DeleteClicked(id) => (s, Delete(s, view, id))
    case ModalToggled => (ToggleModal(s), None)
    case EmailTyped(value) => (EmailChanged(s, value), None)
    case DateTimeTyped(value) => (DateTimeChanged(s, value), None)
    case ConfirmClicked => Submit(s)
    case CreateNoteSucceeded(created, now) => (OnCreateSucceeded(s, created, now), None)
    case UpdateNoteSucceeded(now) => (OnUpdateSucceeded(s, now), None)
    case DeleteNoteSucceeded(id, currentAtClick) => (OnDeleteSucceeded(s, id, currentAtClick), None)
    case ReminderCreated => (s, None)
    case CallFailed(_) => (s, None)
  }

  /** A sequence of events, each seen with the store state of its moment, that the page can handle. */
  predicate Admissible(s: Session, trace: seq<(StoreView, Event)>)
    decreases |trace|
  {
    |trace| == 0 || (Allowed(s, trace[0].1) && Admissible(Step(s, trace[0].0, trace[0].1).0, trace[1..]))
  }

  /**
    Runs a trace: the final session and the store calls issued, in order.
    Each event issues at most one call, and no call writes a note without a heading.
   */
  function Run(s: Session, trace: seq<(StoreView, Event)>): (r: (Session, seq<Request>))
    requires Admissible(s, trace)
    ensures |r.1| <= |trace|
    ensures forall k | 0 <= k < |r.1| :: GuardedWrite(r.1[k])
    decreases |trace|
  {
    if |trace| == 0 then (s, [])
    else
      var (next, request) := Step(s, trace[0].0, trace[0].1);
      var (last, requests) := Run(next, trace[1..]);
      (last, (if request.Some? then [request.value] else []) + requests)
  }
}
