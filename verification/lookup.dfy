/**
  The pure lookups the note page performs on the lists the query layer
  supplies: `notes?.find(note => note.id === id)` (src/pages/note.jsx:123,
  133, 147-149) and the reminder list that hides reminders whose note is not
  in the note list (src/pages/note.jsx:186-194).
 */
module NoteLookup {
  import opened Wrappers

  /** Identifiers are assigned by the remote store and only compared for equality. */
  type NoteId = int

  /** A note as the store returns it. */
  datatype Note = Note(id: NoteId, heading: string, body: string)

  /** A reminder as the store returns it; `noteId` refers to a note without owning it. */
  datatype Reminder = Reminder(id: int, noteId: NoteId, reminderDate: string, email: string)

  /** One rendered reminder entry: the reminder and the heading of the note it is for. */
  datatype ReminderLine = ReminderLine(reminder: Reminder, noteHeading: string)

  predicate HasNoteWithId(notes: seq<Note>, id: NoteId)
  {
    exists k | 0 <= k < |notes| :: notes[k].id == id
  }

  /** `notes.find(note => note.id === id)`: the first note carrying the id, if there is one. */
  function Find(notes: seq<Note>, id: NoteId): (r: Option<Note>)
    ensures r.None? <==> !HasNoteWithId(notes, id)
    ensures r.Some? ==> exists k | 0 <= k < |notes| ::
      notes[k] == r.value && r.value.id == id && !HasNoteWithId(notes[..k], id)
  {
    if |notes| == 0 then None
    else if notes[0].id == id then
      assert notes[..0] == [];
      Some(notes[0])
    else
      var r := Find(notes[1..], id);
      if r.Some? then
        var k :| 0 <= k < |notes[1..]| && notes[1..][k] == r.value && r.value.id == id
          && !HasNoteWithId(notes[1..][..k], id);
        assert notes[..k + 1] == [notes[0]] + notes[1..][..k];
        assert notes[k + 1] == r.value;
        r
      else
        r
  }

  /** `find` picks the first note carrying the id, whatever notes with that id follow it. */
  lemma FindIsFirstMatch(notes: seq<Note>, id: NoteId, k: nat)
    requires k < |notes| && notes[k].id == id && !HasNoteWithId(notes[..k], id)
    ensures Find(notes, id) == Some(notes[k])
  {
    var r := Find(notes, id);
    var j :| 0 <= j < |notes| && notes[j] == r.value && r.value.id == id && !HasNoteWithId(notes[..j], id);
  }

  /** `getNoteWithId` / `notes?.find(...)`: nothing while the note list is not loaded. */
  function GetNoteWithId(notes: Option<seq<Note>>, id: NoteId): (r: Option<Note>)
    ensures r.Some? <==> notes.Some? && HasNoteWithId(notes.value, id)
    ensures r.Some? ==> r.value.id == id && r.value in notes.value
  {
    if notes.None? then None else Find(notes.value, id)
  }

  /** The entry rendered for one reminder: present only when its note is found. */
  function ReminderEntry(notes: Option<seq<Note>>, reminder: Reminder): (r: Option<ReminderLine>)
    ensures r.Some? <==> GetNoteWithId(notes, reminder.noteId).Some?
    ensures r.Some? ==>
      r.value.reminder == reminder && r.value.noteHeading == GetNoteWithId(notes, reminder.noteId).value.heading
  {
    match GetNoteWithId(notes, reminder.noteId)
    case None => None
    case Some(note) => Some(ReminderLine(reminder, note.heading))
  }

  function EntryAsSeq(e: Option<ReminderLine>): seq<ReminderLine>
  {
    match e
    case None => []
    case Some(line) => [line]
  }

  /** The reminder list as rendered: each reminder in turn, orphaned ones left out. */
  function VisibleReminders(notes: Option<seq<Note>>, reminders: seq<Reminder>): (lines: seq<ReminderLine>)
    ensures |lines| <= |reminders|
    ensures forall k | 0 <= k < |lines| ::
      && lines[k].reminder in reminders
      && GetNoteWithId(notes, lines[k].reminder.noteId).Some?
      && lines[k].noteHeading == GetNoteWithId(notes, lines[k].reminder.noteId).value.heading
  {
    if |reminders| == 0 then []
    else EntryAsSeq(ReminderEntry(notes, reminders[0])) + VisibleReminders(notes, reminders[1..])
  }

  /** `reminders && reminders.map(...)`: nothing is rendered while the reminders are not loaded. */
  function RenderedReminders(notes: Option<seq<Note>>, reminders: Option<seq<Reminder>>): (lines: seq<ReminderLine>)
    ensures reminders.None? ==> lines == []
    ensures notes.None? ==> lines == []
  {
    if reminders.None? then []
    else
      var lines := VisibleReminders(notes, reminders.value);
      assert |lines| > 0 ==> GetNoteWithId(notes, lines[0].reminder.noteId).Some?;
      lines
  }

  /**
    The join is computed reminder by reminder and keeps the reminders' order:
    rendering a concatenation renders each part and concatenates the results.
   */
  lemma {:induction false} VisibleRemindersAppend(notes: Option<seq<Note>>, a: seq<Reminder>, b: seq<Reminder>)
    ensures VisibleReminders(notes, a + b) == VisibleReminders(notes, a) + VisibleReminders(notes, b)
  {
    if |a| == 0 {
      assert a + b == b;
    } else {
      assert (a + b)[1..] == a[1..] + b;
      VisibleRemindersAppend(notes, a[1..], b);
    }
  }

  /**
    A reminder is rendered exactly when it is in the list and some note carries
    its `noteId`; orphaned reminders are hidden, not removed from the list.
   */
  lemma {:induction false} VisibleReminderIff(notes: Option<seq<Note>>, reminders: seq<Reminder>, r: Reminder)
    ensures (exists k | 0 <= k < |VisibleReminders(notes, reminders)| :: VisibleReminders(notes, reminders)[k].reminder == r)
        <==> r in reminders && notes.Some? && HasNoteWithId(notes.value, r.noteId)
  {
    if |reminders| > 0 {
      VisibleReminderIff(notes, reminders[1..], r);
      var head: seq<ReminderLine> := EntryAsSeq(ReminderEntry(notes, reminders[0]));
      var rest: seq<ReminderLine> := VisibleReminders(notes, reminders[1..]);
      assert VisibleReminders(notes, reminders) == head + rest;
      if r in reminders && notes.Some? && HasNoteWithId(notes.value, r.noteId) {
        if r == reminders[0] {
          assert (head + rest)[0].reminder == r;
        } else {
          assert r in reminders[1..];
          var k :| 0 <= k < |rest| && rest[k].reminder == r;
          assert (head + rest)[|head| + k].reminder == r;
        }
      }
    }
  }
}
