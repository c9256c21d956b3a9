# Note page edit session: a Dafny model

This project models the edit session of the note-taking client's note page
(`src/pages/note.jsx`): the state the page keeps while a note is written,
the autosave effect that decides between creating and updating a note once
the body has stopped changing, the Edit, Delete and New-note actions, the
reminder form, the email-shape check, and the reminder list that hides
reminders whose note is gone.

React keeps one immutable state snapshot per render, and every handler
closes over the snapshot of the render it came from. The model therefore
writes each handler as a function from that snapshot (`EditSession.Session`)
to the next snapshot and the store call it asks for (`EditSession.Request`).
The completion of a store call is a separate event, so any interleaving of
user input and completions can be written as a trace and run with
`EditSession.Run`. `handleSubmit`, which clears a local `isValid` flag check
by check, is also written as a method, `EditSession.HandleSubmit`, proved
equal to the function.

Modules:

- `Wrappers` (`wrappers.dfy`): `Option`, standing for `null`/`undefined`.
- `EmailShape` (`email.dfy`): the regular expression `^[^\s@]+@[^\s@]+\.[^\s@]+$`
  as a predicate, and its equivalence with the shape local-part `@` domain.
- `NoteLookup` (`lookup.dfy`): notes, reminders, `find` by id, and the
  reminder-to-note join.
- `EditSession` (`session.dfy`): the session state, the requests, every
  handler and callback, one-event `Step` and trace `Run`.
- `SessionProperties` (`session_props.dfy`): properties that span several
  events, plus two worked scenarios.

Inputs the page reads from its query hooks are parameters: the note list
and the in-flight flags (`isCreating`, `isUpdating`, `isDeleting`) form
`EditSession.StoreView`, supplied with each event. Clock readings
(`new Date()`) are `nat` timestamps carried by the events.

Behaviour as written, which the model keeps:

- An update sends the live `body`, not the debounced value that triggered it.
- Only a change of the debounced body re-runs the autosave effect; editing
  the heading alone never saves.
- "New note" does not reset the last-saved time.
- The bell opens the reminder form even when no note is current.
- The email is treated as missing only when both the field and its error are
  empty. Once anything has been typed, the error is non-empty for every
  rejected value, including the empty string, so the email check never
  blocks Confirm again (`SessionProperties.EmailNeverBlocksAfterTyping`).
  A rejected Confirm has the same effect: on an untouched email field the
  first Confirm sets "Email is required.", and the second sends the empty
  address (`SessionProperties.SecondConfirmSendsEmptyEmail`).
  The intended design is that a malformed address blocks the submission; the
  code does not do that, and the model follows the code.
- The delete callback compares the deleted id with the note that was current
  when Delete was clicked, not when the delete completed
  (`SessionProperties.LateDeleteResetsNewerNote`).
- When no note was current at the click, that callback fails reading the
  missing note's id before it resets anything. The model chooses "no reset".
- Confirm on a form that passes reads the current note's id. The model makes
  "a current note exists whenever the form passes" a precondition of
  `EditSession.Submit` (and `Allowed` for `Step`).

## Model

| member | source | states |
|---|---|---|
| `EmailShape.RegexTestIsLocalAtDomain` | src/pages/note.jsx:39-40 | The regular expression accepts a string exactly when it is `L@D`: `L` non-empty with no whitespace or `@`, and `D` with no whitespace or `@` and a `.` that is neither first nor last. |
| `EmailShape.AcceptedAddressHasOneAt` | src/pages/note.jsx:39 | An accepted address holds exactly one `@`, and not in first position. |
| `EmailShape.AcceptedAddressHasNoWhitespace` | src/pages/note.jsx:39 | An accepted address contains no JavaScript whitespace character. |
| `NoteLookup.Find` | src/pages/note.jsx:123 | The lookup finds nothing exactly when no note has the id; otherwise it returns a listed note with that id and no earlier note has the id. |
| `NoteLookup.FindIsFirstMatch` | src/pages/note.jsx:123 | The note returned is the first one carrying the id, whatever notes with that id follow it. |
| `NoteLookup.GetNoteWithId` | src/pages/note.jsx:147-149 | With the list not loaded nothing is found; otherwise a note is found exactly when one has the id, and it is a listed note with that id. |
| `NoteLookup.ReminderEntry` | src/pages/note.jsx:188-192 | A reminder yields an entry exactly when its note is found, and the entry is labelled with that note's heading. |
| `NoteLookup.VisibleReminders` | src/pages/note.jsx:186-194 | Never more entries than reminders; every entry is a listed reminder whose note is found, labelled with the heading of the first note with its `note_id`. |
| `NoteLookup.RenderedReminders` | src/pages/note.jsx:186 | Nothing is rendered while the reminders or the notes are not loaded. |
| `NoteLookup.VisibleRemindersAppend` | src/pages/note.jsx:186-194 | The join works reminder by reminder and keeps their order: rendering `a + b` renders `a` then `b`. |
| `NoteLookup.VisibleReminderIff` | src/pages/note.jsx:186-194 | A reminder is rendered exactly when it is in the list and some note carries its `note_id`; orphaned reminders are hidden. |
| `EditSession.Mount` | src/pages/note.jsx:19-28 | The page starts with no current note, empty heading, body and debounced body, the modal closed, empty email, date and error fields, the mount time as save time, and the effect's mount run issues no store call. |
| `EditSession.OnBodySettled` | src/pages/note.jsx:47-81 | A debounced body issues a call exactly when it differs from the last one and both it and the heading are non-empty: `CreateNote(heading, debounced body)` with no current note, `UpdateNote(current id, heading, live body)` otherwise; only the debounced value changes in the session. |
| `EditSession.OnCreateSucceeded` | src/pages/note.jsx:54-57 | A settled create makes the returned note current and sets the save time, and changes nothing else. |
| `EditSession.OnUpdateSucceeded` | src/pages/note.jsx:69-72 | A settled update changes only the save time. |
| `EditSession.NewNote` | src/pages/note.jsx:115-119 | "New note" empties heading and body and clears the current note, and changes nothing else, the save time included. |
| `EditSession.Edit` | src/pages/note.jsx:121-129 | Edit is a no-op while a mutation is in flight or when no note has the id; otherwise it makes the found note current and loads its heading and body, changing nothing else. |
| `EditSession.Delete` | src/pages/note.jsx:131-135 | Delete issues a call exactly when no mutation is in flight and a listed note has the id, and then it is one delete of that id. |
| `EditSession.OnDeleteSucceeded` | src/pages/note.jsx:136-139 | A settled delete resets the session as "New note" does when the note current at the click has the deleted id, and changes nothing otherwise. |
| `EditSession.ToggleModal` | src/pages/note.jsx:31-33 | The modal flag flips and nothing else changes. |
| `EditSession.EmailChanged` | src/pages/note.jsx:35-45 | The email is stored and its error is empty exactly when the value has the shape `L@D`; otherwise the error is the invalid-address message. |
| `EditSession.DateTimeChanged` | src/pages/note.jsx:264-267 | The date is stored and the date error is cleared. |
| `EditSession.Submit` | src/pages/note.jsx:83-113 | A reminder call is issued exactly when the date is present and the email or its error is non-empty; it is `CreateReminder(current id, date, email)` and flips the modal; the error messages are set or cleared per field. |
| `EditSession.HandleSubmit` | src/pages/note.jsx:83-113 | The flag-by-flag handler computes exactly the session and call of `Submit`. |
| `EditSession.Step` | src/pages/note.jsx:49-81 | Whatever the event, a note write it asks for has a non-empty heading, and a create also a non-empty body. |
| `EditSession.Run` | src/pages/note.jsx:49-81 | Along any trace each event issues at most one store call, and no call writes a note without a heading. |
| `SessionProperties.IdentityLifecycle` | src/pages/note.jsx:49-145 | The current note changes only when a create settles (to the created note), on Edit (to the found note), or on "New note" or a settled delete (to none). |
| `SessionProperties.WritesOnlyOnNewDebouncedBody` | src/pages/note.jsx:49-81 | Only a new debounced body causes a create or update, and it is a create exactly when no note is current. |
| `SessionProperties.SaveTimeChangesOnlyOnSave` | src/pages/note.jsx:49-81 | The save time changes only when a create or an update settles. |
| `SessionProperties.CreateThenUpdate` | src/pages/note.jsx:49-81 | With no current note a new body creates a note; after the create settles the next new body updates that note's id. |
| `SessionProperties.DeleteResetsOnlyTheCurrentNote` | src/pages/note.jsx:131-145 | Delete issues one call capturing the current note; its completion resets the session exactly when that note has the deleted id, and otherwise leaves it unchanged. |
| `SessionProperties.BusyPageIgnoresEditAndDelete` | src/pages/note.jsx:121-133 | While a mutation is in flight Edit and Delete change nothing and issue nothing. |
| `SessionProperties.EditLoadsFirstNoteWithId` | src/pages/note.jsx:121-129 | Edit loads the first listed note with the id, with its heading and body. |
| `SessionProperties.EmailNeverBlocksAfterTyping` | src/pages/note.jsx:35-113 | After any email input, Confirm sends a reminder exactly when the date is present. |
| `SessionProperties.SecondConfirmSendsEmptyEmail` | src/pages/note.jsx:83-113 | On an untouched email field with a date set, the first Confirm sends nothing and sets "Email is required."; the second sends a reminder with the empty address. |
| `SessionProperties.MalformedEmailIsSubmitted` | src/pages/note.jsx:83-113 | The rejected address `x` carries the invalid-address error and is still sent in a reminder. |
| `SessionProperties.UntouchedFormIsRejected` | src/pages/note.jsx:83-96 | On the untouched form Confirm issues nothing and reports both the email and the date as required. |
| `SessionProperties.GroceriesScenario` | src/pages/note.jsx:49-81 | Heading "Groceries", body "milk", create answered with note 42, body "milk, eggs": one create, then one update of note 42, and note 42 stays current. |
| `SessionProperties.NewNoteThenLateDelete` | src/pages/note.jsx:115-145 | While the delete of note 5 is in flight, a new note is saved as note 7; the late completion still resets the session. |
| `SessionProperties.LateDeleteResetsNewerNote` | src/pages/note.jsx:131-145 | Deleting the current note 5 and then saving a new note 7 ends with no current note and empty fields: the reset hits the newer note. |

## Left out

- The debounce hook (`useDebounce`) is not part of this model: its timer is replaced by the `BodySettled` event carrying the settled body.
- Timing and completion order: store calls settle as events in whatever order a trace gives. Two body emissions before the first create settles issue two creates; the model can express this race but proves nothing about it.
- The query layer (`src/queries/useNotes.js`, `src/queries/useReminders.js`): cache invalidation and refetching, and how the in-flight flags follow calls, are left out; the note list and flags are inputs. Which per-call callbacks the mutation library still delivers after a newer call is not modelled.
- The HTTP services (`src/services/noteService.js`, `src/services/reminderService.js`): transport and error wrapping. Failed calls only log, which the model represents as `CallFailed` changing nothing.
- Traces do not tie completions to the calls they answer: `CreateNoteSucceeded`, `UpdateNoteSucceeded` and `DeleteNoteSucceeded` may appear with no matching call issued before them, and the `currentAtClick` of a delete completion is given by the trace rather than taken from its `DeleteNote` request. This only admits more traces, so properties proved for all traces still hold for the real ones.
- The autosave effect's second dependency, the `createNote` mutation function, is assumed stable, so only debounced-body changes re-run the effect.
- Rendering, CSS classes, `toLocaleString` formatting, the error banners for failed calls, and console logging. `headingError` is never set by the page and is left out.
- Character model: JavaScript strings are UTF-16 code units and the model uses Unicode scalar values; the regular expression's outcome is the same for both, since it only counts runs of non-space, non-`@` characters.
