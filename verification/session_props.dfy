/**
  Properties of the edit session that relate several events or hold for every
  event: how the current note's identity may change, when notes are written,
  what a delete does to the session, and what the reminder form lets through.
 */
module SessionProperties {
  import opened Wrappers
  import opened NoteLookup
  import opened EmailShape
  import opened EditSession

  /**
    The current note changes only when a create settles (to the created note),
    on Edit (to the first listed note with the id), or on "New note" and a
    delete of the note that was current (to none).
   */
  lemma IdentityLifecycle(s: Session, view: StoreView, e: Event)
    requires Allowed(s, e)
    ensures var next := Step(s, view, e).0;
      next.currentNote != s.currentNote ==>
        || (e.CreateNoteSucceeded? && next.currentNote == Some(e.created))
        || (e.EditClicked? && next.currentNote.Some? && next.currentNote == GetNoteWithId(view.notes, e.id))
        || ((e.NewNoteClicked? || e.DeleteNoteSucceeded?) && next.currentNote.None?)
  {
  }

  /**
    A note is created or updated only when the debounce hook produces a body
    different from the last one: typing a heading alone never saves. It is
    created exactly when there is no current note.
   */
  lemma WritesOnlyOnNewDebouncedBody(s: Session, view: StoreView, e: Event)
    requires Allowed(s, e)
    ensures var request := Step(s, view, e).1;
      request.Some? && (request.value.CreateNote? || request.value.UpdateNote?) ==>
        && e.BodySettled? && e.value != s.debouncedBody
        && (request.value.CreateNote? <==> s.currentNote.None?)
  {
  }

  /** The save time changes only when a create or an update settles. */
  lemma SaveTimeChangesOnlyOnSave(s: Session, view: StoreView, e: Event)
    requires Allowed(s, e)
    ensures Step(s, view, e).0.lastUpdated != s.lastUpdated ==> e.CreateNoteSucceeded? || e.UpdateNoteSucceeded?
  {
  }

  /**
    The create-then-update cycle: with no current note, a new non-empty body
    creates a note; once that create settles, the next new non-empty body
    updates that very note, with the heading and the live body.
   */
  lemma CreateThenUpdate(s: Session, view: StoreView, body: string, created: Note, now: nat, nextBody: string)
    requires s.currentNote.None? && s.heading != ""
    requires body != "" && body != s.debouncedBody
    requires nextBody != "" && nextBody != body
    ensures var (s1, r1) := Step(s, view, BodySettled(body));
      && r1 == Some(CreateNote(s.heading, body))
      && var s2 := Step(s1, view, CreateNoteSucceeded(created, now)).0;
      && s2.currentNote == Some(created) && s2.lastUpdated == now
      && Step(s2, view, BodySettled(nextBody)).1 == Some(UpdateNote(created.id, s.heading, s.body))
  {
  }

  /**
    Clicking Delete on the current note asks for one delete, and when that
    delete settles the session is reset as "New note" resets it, whatever
    happened in between. Deleting any other note leaves the session as it is.
   */
  lemma DeleteResetsOnlyTheCurrentNote(s: Session, view: StoreView, id: NoteId, later: Session, laterView: StoreView)
    requires !MutationInFlight(view) && view.notes.Some? && HasNoteWithId(view.notes.value, id)
    ensures var (s1, r1) := Step(s, view, DeleteClicked(id));
      && s1 == s && r1 == Some(DeleteNote(id, s.currentNote))
      && var after := Step(later, laterView, DeleteNoteSucceeded(id, s.currentNote)).0;
      && (s.currentNote.Some? && s.currentNote.value.id == id ==> after == NewNote(later))
      && (!(s.currentNote.Some? && s.currentNote.value.id == id) ==> after == later)
  {
  }

  /**
    Edit and Delete are ignored while any note mutation is in flight.
   */
  lemma BusyPageIgnoresEditAndDelete(s: Session, view: StoreView, id: NoteId)
    requires MutationInFlight(view)
    ensures Step(s, view, EditClicked(id)) == (s, None)
    ensures Step(s, view, DeleteClicked(id)) == (s, None)
  {
  }

  /** Edit loads the first listed note that carries the id. */
  lemma EditLoadsFirstNoteWithId(s: Session, notes: seq<Note>, id: NoteId, k: nat)
    requires k < |notes| && notes[k].id == id && !HasNoteWithId(notes[..k], id)
    ensures var next := Step(s, StoreView(Some(notes), false, false, false), EditClicked(id)).0;
      next.currentNote == Some(notes[k]) && next.heading == notes[k].heading && next.body == notes[k].body
  {
    FindIsFirstMatch(notes, id, k);
  }

  /**
    Once anything has been typed into the email field, the email check never
    blocks Confirm: an empty or malformed address leaves a non-empty error, and
    the form only treats the email as missing when the error is empty too.
    Only the date then decides.
   */
  lemma EmailNeverBlocksAfterTyping(s: Session, value: string)
    requires s.currentNote.Some?
    ensures var typed := EmailChanged(s, value);
      Submit(typed).1.Some? <==> s.dateTime != ""
  {
    var typed := EmailChanged(s, value);
    if value == "" {
      assert !IsLocalAtDomain(value);
      assert typed.emailError != "";
    }
  }

  /**
    A rejected Confirm also unblocks the email check: on a form whose email was
    never touched, the first Confirm only reports the email as required, and
    the second sends a reminder with the empty address.
   */
  lemma SecondConfirmSendsEmptyEmail(s: Session)
    requires s.currentNote.Some? && s.dateTime != "" && s.email == "" && s.emailError == ""
    ensures Submit(s).1.None? && Submit(s).0.emailError == EmailRequiredMessage
    ensures Submit(Submit(s).0).1 == Some(CreateReminder(s.currentNote.value.id, s.dateTime, ""))
  {
  }

  /** A concrete malformed address that the form submits. */
  lemma MalformedEmailIsSubmitted(s: Session)
    requires s.currentNote.Some? && s.dateTime != ""
    ensures var typed := EmailChanged(s, "x");
      && typed.emailError == InvalidEmailMessage
      && Submit(typed).1 == Some(CreateReminder(s.currentNote.value.id, s.dateTime, "x"))
  {
    assert !IsLocalAtDomain("x");
  }

  /** The page untouched since mount: the email is reported missing and nothing is sent. */
  lemma UntouchedFormIsRejected(now: nat)
    ensures var (checked, request) := Submit(Initial(now));
      && request.None?
      && checked.emailError == EmailRequiredMessage && checked.dateError == DateRequiredMessage
  {
  }

  const Groceries: string := "Groceries"
  const Milk: string := "milk"
  const MilkAndEggs: string := "milk, eggs"

  /**
    Type a heading and a body, let the body settle, receive note 42 from the
    store, edit the body and let it settle again: one create, then one update
    of note 42 with the new body.
   */
  lemma GroceriesScenario(view: StoreView)
    ensures var trace := [
        (view, HeadingTyped(Groceries)), (view, BodyTyped(Milk)), (view, BodySettled(Milk)),
        (view, CreateNoteSucceeded(Note(42, Groceries, Milk), 1)),
        (view, BodyTyped(MilkAndEggs)), (view, BodySettled(MilkAndEggs))];
      && Admissible(Initial(0), trace)
      && Run(Initial(0), trace).1 == [CreateNote(Groceries, Milk), UpdateNote(42, Groceries, MilkAndEggs)]
      && Run(Initial(0), trace).0.currentNote == Some(Note(42, Groceries, Milk))
  {
    var t := [
      (view, HeadingTyped(Groceries)), (view, BodyTyped(Milk)), (view, BodySettled(Milk)),
      (view, CreateNoteSucceeded(Note(42, Groceries, Milk), 1)),
      (view, BodyTyped(MilkAndEggs)), (view, BodySettled(MilkAndEggs))];
    var s0 := Initial(0);
    var s1 := s0.(heading := Groceries);
    var s2 := s1.(body := Milk);
    var s3 := s2.(debouncedBody := Milk);
    var s4 := s3.(currentNote := Some(Note(42, Groceries, Milk)), lastUpdated := 1);
    var s5 := s4.(body := MilkAndEggs);
    var s6 := s5.(debouncedBody := MilkAndEggs);
    var update := UpdateNote(42, Groceries, MilkAndEggs);
    assert t[5..][1..] == t[6..];
    RunOne(s5, t[5..], s6, Some(update), s6, []);
    assert t[4..][1..] == t[5..];
    assert [update] + [] == [update];
    RunOne(s4, t[4..], s5, None, s6, [update]);
    assert t[3..][1..] == t[4..];
    RunOne(s3, t[3..], s4, None, s6, [update]);
    assert t[2..][1..] == t[3..];
    RunOne(s2, t[2..], s3, Some(CreateNote(Groceries, Milk)), s6, [update]);
    assert t[1..][1..] == t[2..];
    assert [CreateNote(Groceries, Milk)] + [update] == [CreateNote(Groceries, Milk), update];
    RunOne(s1, t[1..], s2, None, s6, [CreateNote(Groceries, Milk), update]);
    assert t[1..] == t[0..][1..];
    RunOne(s0, t, s1, None, s6, [CreateNote(Groceries, Milk), update]);
  }

  const Five: Note := Note(5, Groceries, Milk)
  const Seven: Note := Note(7, Groceries, MilkAndEggs)

  /** The page while Delete of note 5 is in flight. */
  function Deleting(): StoreView
  {
    StoreView(Some([Five]), false, false, true)
  }

  /** What the user does while the delete of note 5 is in flight, ending with its late completion. */
  function WhileDeleting(): seq<(StoreView, Event)>
  {
    [ (Deleting(), NewNoteClicked), (Deleting(), HeadingTyped(Groceries)),
      (Deleting(), BodyTyped(MilkAndEggs)), (Deleting(), BodySettled(MilkAndEggs)),
      (Deleting(), CreateNoteSucceeded(Seven, 1)),
      (Deleting(), DeleteNoteSucceeded(5, Some(Five))) ]
  }

  /** Editing note 5, whose body has already been saved. */
  function EditingFive(): Session
  {
    Initial(0).(currentNote := Some(Five), heading := Groceries, body := Milk, debouncedBody := Milk)
  }

  /** Starting a new note, having it saved as note 7, then the delete of note 5 completing. */
  lemma NewNoteThenLateDelete()
    ensures Admissible(EditingFive(), WhileDeleting())
    ensures Run(EditingFive(), WhileDeleting()).1 == [CreateNote(Groceries, MilkAndEggs)]
    ensures Run(EditingFive(), WhileDeleting()).0 == Initial(0).(debouncedBody := MilkAndEggs, lastUpdated := 1)
  {
    var s := EditingFive();
    var t := WhileDeleting();
    var s1 := NewNote(s);
    var s2 := s1.(heading := Groceries);
    var s3 := s2.(body := MilkAndEggs);
    var s4 := s3.(debouncedBody := MilkAndEggs);
    var s5 := s4.(currentNote := Some(Seven), lastUpdated := 1);
    var s6 := NewNote(s5);
    var create := CreateNote(Groceries, MilkAndEggs);
    assert t[5..][1..] == [];
    RunOne(s5, t[5..], s6, None, s6, []);
    assert t[4..][1..] == t[5..];
    RunOne(s4, t[4..], s5, None, s6, []);
    assert t[3..][1..] == t[4..];
    RunOne(s3, t[3..], s4, Some(create), s6, []);
    assert t[2..][1..] == t[3..];
    assert [create] + [] == [create];
    RunOne(s2, t[2..], s3, None, s6, [create]);
    assert t[1..][1..] == t[2..];
    RunOne(s1, t[1..], s2, None, s6, [create]);
    RunOne(s, t, s1, None, s6, [create]);
  }

  /**
    The delete callback compares with the note that was current at the click,
    not at completion: delete note 5 while editing it, start a new note, get it
    saved as note 7, and the late delete completion still resets the session,
    leaving note 7 no longer current.
   */
  lemma LateDeleteResetsNewerNote()
    ensures var editing := EditingFive();
      var trace := [(StoreView(Some([Five]), false, false, false), DeleteClicked(5))] + WhileDeleting();
      && Admissible(editing, trace)
      && Run(editing, trace).1 == [DeleteNote(5, Some(Five)), CreateNote(Groceries, MilkAndEggs)]
      && Run(editing, trace).0.currentNote.None?
      && Run(editing, trace).0.heading == "" && Run(editing, trace).0.body == ""
  {
    var editing := EditingFive();
    var idle := StoreView(Some([Five]), false, false, false);
    var t := [(idle, DeleteClicked(5))] + WhileDeleting();
    assert GetNoteWithId(idle.notes, 5) == Some(Five);
    NewNoteThenLateDelete();
    assert t[1..] == WhileDeleting();
    RunOne(editing, t, editing, Some(DeleteNote(5, Some(Five))), Run(editing, WhileDeleting()).0, [CreateNote(Groceries, MilkAndEggs)]);
    assert [DeleteNote(5, Some(Five))] + [CreateNote(Groceries, MilkAndEggs)] == [DeleteNote(5, Some(Five)), CreateNote(Groceries, MilkAndEggs)];
  }

  /** Running one event in front of a trace whose run is known. */
  lemma RunOne(s: Session, trace: seq<(StoreView, Event)>, next: Session, request: Option<Request>,
               last: Session, requests: seq<Request>)
    requires |trace| > 0 && Allowed(s, trace[0].1) && Step(s, trace[0].0, trace[0].1) == (next, request)
    requires Admissible(next, trace[1..]) && Run(next, trace[1..]) == (last, requests)
    ensures Admissible(s, trace)
    ensures Run(s, trace) == (last, if request.Some? then [request.value] + requests else requests)
  {
    assert [] + requests == requests;
  }
}
