# QuickNote notes and tasks: a Dafny model

This project models the state logic of QuickNote, a React Native app that has
three parts:

- a note collection (`app/_layout.tsx`), with search, six sort orders,
  favourites, categories, persistence under the key `notes`, and a plain-text
  share rendering;
- a task list (`app/TaskScreen.tsx`), with add, toggle and delete, persistence
  under the key `tasks`, and a calendar workflow. That workflow turns a task
  into a one-hour calendar event: choose a calendar, then a date, then a time;
- a note editor (`app/AddNote.tsx`), covering the initial state, the format
  toggles, the blank-title check before saving, and the `stripHtml` helper.

The React state of each screen becomes a Dafny `class` whose methods change
its fields. Each handler is one method, and the `setX` calls of a handler
become field assignments. The new arrays that the handlers build with `map`,
`filter` and spread are specified by pure functions (`Tasks.ToggleTask`,
`NoteStore.WithEdit`, ...). Lemmas state what those functions promise:

- exactly which records change;
- permutation and order for sorting;
- subsequence and multiset facts for filtering;
- preserved invariants: unique ids, `createdAt <= updatedAt`, duplicate-free
  categories;
- round trips and involutions.

`AsyncStorage` is a `Storage.DurableStore` object: a map from key to the
stored snapshot. A write may fail, and then nothing changes. Dates are
milliseconds since the epoch, and the local time zone is taken to be UTC.
`toLowerCase`, `localeCompare`, the clock and the calendar service's answer
are parameters.

Modules:

- `Wrappers` (Option);
- `Text` (`trim`, `includes`);
- `Seqs` (order-preserving filter);
- `Notes` (the note record, share text);
- `NoteView` (search and sort);
- `NoteStore` (the notes screen state);
- `Tasks` (the task record and list transforms);
- `CalendarEvent` (date arithmetic, event details);
- `TaskScreen` (the task screen state);
- `Editor` (the note editor);
- `Storage` (the key-value store).

## Model

| member | source | states |
|---|---|---|
| Text.TrimStart | app/_layout.tsx:233 | the result is the suffix of the input left after its leading whitespace run, and it starts with a non-whitespace character or is empty |
| Text.TrimEnd | app/_layout.tsx:233 | the result is the prefix of the input left before its trailing whitespace run, and it ends with a non-whitespace character or is empty |
| Text.TrimSpec | app/_layout.tsx:233 | `trim()` yields the slice between a whitespace-only prefix and a whitespace-only suffix |
| Text.TrimEdges | app/_layout.tsx:233 | the trimmed string neither starts nor ends with whitespace |
| Text.TrimEmptyIffBlank | app/TaskScreen.tsx:69 | the trimmed string is empty (falsy) exactly when the input consists of whitespace only |
| Text.TrimIdempotent | app/_layout.tsx:233-234 | trimming an already trimmed string changes nothing |
| Text.ContainsIffOccurs | app/_layout.tsx:315 | `includes` holds exactly when the query occurs as a contiguous substring at some index |
| Text.ContainsEmpty | app/_layout.tsx:315 | every title includes the empty query |
| Seqs.Filter | app/_layout.tsx:314-316 | the filter result keeps exactly the elements that satisfy the predicate, with their multiplicity, and is no longer than the input |
| Seqs.FilterIsSubsequence | app/_layout.tsx:314-316 | the filter result is an order-preserving subsequence of its input |
| Seqs.FilterKeepsAll | app/_layout.tsx:314-316 | when every element satisfies the predicate, the result equals the input |
| Seqs.FilterPreservesUniqueBy | app/TaskScreen.tsx:101 | filtering keeps keys (ids) unique |
| Notes.ShareTextRoundTrip | app/_layout.tsx:474 | a single-line title and the content are recovered exactly from `title + "\n\n" + content` |
| NoteView.FilteredNotesSpec | app/_layout.tsx:314-316 | the search keeps exactly the notes whose lower-cased title includes the lower-cased query, in order and with multiplicity; an empty query keeps all notes |
| NoteView.InOrderTotalPreorder | app/_layout.tsx:322-348 | given a consistent `localeCompare`, each of the six comparators is total and transitive |
| NoteView.Insert | app/_layout.tsx:320-348 | inserting adds exactly the one note to the multiset of notes |
| NoteView.SortNotes | app/_layout.tsx:320-348 | the sorted copy is a permutation of its input |
| NoteView.InsertSorted | app/_layout.tsx:320-348 | inserting into a sorted list keeps it sorted |
| NoteView.SortNotesSorted | app/_layout.tsx:320-348 | the sorted copy is ordered under the chosen comparator |
| NoteView.GetSortedNotesSpec | app/_layout.tsx:319-352 | result is a permutation (same length) ordered per option. DATE_DESC: newest `updatedAt` first. DATE_ASC: oldest first. TITLE_ASC and TITLE_DESC: by `localeCompare` of titles. CATEGORY: by `localeCompare` of the category, a missing one compared as `''`. FAVORITE: favourites first, each group newest first |
| NoteView.VisibleNotesSpec | app/_layout.tsx:314-354 | the displayed list holds each matching note as often as it is stored, and nothing else, in the chosen order |
| NoteStore.WithEdit | app/_layout.tsx:250-258 | the edit keeps the collection's length |
| NoteStore.WithEditSpec | app/_layout.tsx:249-258 | notes with the edited id take the payload's fields and `updatedAt := now`, and keep their id, `createdAt` and `isFavorite`. Other notes are unchanged; with no such id, the collection is unchanged. Ids stay unique; timestamps stay ordered if `now` is not before any creation time |
| NoteStore.WithoutNoteSpec | app/_layout.tsx:294 | deletion keeps exactly the notes with another id, in order and with multiplicity; an absent id leaves the collection equal |
| NoteStore.WithoutNoteKeepsValid | app/_layout.tsx:294 | deletion keeps ids unique and `createdAt <= updatedAt` |
| NoteStore.WithFavoriteToggled | app/_layout.tsx:305-312 | toggling keeps the collection's length |
| NoteStore.WithFavoriteToggledSpec | app/_layout.tsx:305-312 | exactly the notes with the id have `isFavorite` flipped, and no other field changes (`updatedAt` included); an absent id changes nothing; invariants are kept |
| NoteStore.WithFavoriteToggledTwice | app/_layout.tsx:305-312 | toggling the same note twice restores the collection |
| NoteStore.WithCategorySpec | app/_layout.tsx:232-238 | the list changes exactly when the trimmed input is non-blank and not yet present, and then only by appending it; a duplicate-free list stays duplicate-free |
| NoteStore.NotesApp.constructor | app/_layout.tsx:166-174 | no notes; the four default categories; no note being edited; empty category input |
| NoteStore.NotesApp.SaveNotes | app/_layout.tsx:209-211 | after a successful write the store holds the current notes under `notes`; after a failed write it is unchanged |
| NoteStore.NotesApp.HandleEditNote | app/_layout.tsx:276-279 | the given note becomes the one being edited |
| NoteStore.NotesApp.CancelEdit | app/_layout.tsx:935-938 | cancelling the editor ends editing without touching the notes |
| NoteStore.NotesApp.HandleSaveNote | app/_layout.tsx:240-274 | editing: the edited note's id receives the payload (`WithEdit`). Creating: a new non-favourite note with a fresh id and the two clock readings goes first. Editing ends, the invariants hold, and the notes are persisted |
| NoteStore.NotesApp.DeleteNote | app/_layout.tsx:281-303 | the notes with the id are removed (`WithoutNote`); editing ends if that note was being edited; invariants hold; the notes are persisted |
| NoteStore.NotesApp.ToggleFavorite | app/_layout.tsx:305-312 | `notes := WithFavoriteToggled(old notes, id)`; nothing else in the screen changes; the invariants hold; the notes are persisted |
| NoteStore.NotesApp.AddCategory | app/_layout.tsx:232-238 | categories become `WithCategory(old categories, input)`; the input is cleared exactly when a category was added; categories stay duplicate-free |
| Tasks.ToggleTask | app/TaskScreen.tsx:84-86 | toggling keeps the list's length |
| Tasks.LinkEvent | app/TaskScreen.tsx:174-176 | linking keeps the list's length |
| Tasks.AddTaskSpec | app/TaskScreen.tsx:68-81 | an input that trims to nothing (whitespace only, by `Text.TrimEmptyIffBlank`) leaves the list unchanged. Otherwise exactly one task is prepended: the trimmed title (non-empty, no edge whitespace), not completed, medium priority, no due date and no event. The old tasks follow unchanged |
| Tasks.AddTaskKeepsUniqueIds | app/TaskScreen.tsx:68-81 | adding under an id no task has keeps ids unique |
| Tasks.ToggleTaskSpec | app/TaskScreen.tsx:83-89 | exactly the tasks with the id have `completed` flipped, and no other field changes; an absent id changes nothing; ids stay unique |
| Tasks.ToggleTaskTwice | app/TaskScreen.tsx:83-89 | toggling the same task twice restores the list |
| Tasks.DeleteTaskSpec | app/TaskScreen.tsx:100-104 | deletion keeps exactly the tasks with another id, in order and with multiplicity; an absent id leaves the list equal (same length); ids stay unique |
| Tasks.LinkEventSpec | app/TaskScreen.tsx:172-176 | exactly the tasks with the id get `calendarEventId := eventId`, and nothing else changes; an absent id changes nothing; ids stay unique |
| Storage.DurableStore.SetItem | app/TaskScreen.tsx:60-66 | a successful write maps the key to the value and leaves other keys alone; a failed write changes nothing |
| CalendarEvent.Decompose | app/TaskScreen.tsx:152-154 | every instant is its day, hour (0-23), minute (0-59) and sub-minute part put together |
| CalendarEvent.Compose | app/TaskScreen.tsx:152-154 | an instant assembled from in-range parts reads back exactly those parts |
| CalendarEvent.EventStartSpec | app/TaskScreen.tsx:152-154 | the start lies on the picked date's day, at the picked time's hour and minute, and keeps the date's seconds |
| CalendarEvent.EventForSpec | app/TaskScreen.tsx:152-170 | the event has the task's title and a start as above; it ends 3,600,000 ms later, is not all-day, carries the fixed notes, and has one alert at -30 minutes |
| CalendarEvent.EarlierTimeMissesPick | app/TaskScreen.tsx:141-154 | an event built from an earlier time reading misses the picked hour or minute whenever the two readings differ on the clock face |
| CalendarEvent.MidnightInsteadOfHalfPastTen | app/TaskScreen.tsx:141-154 | concrete instance: 10:30 is picked, but the start is built from a midnight reading and lands at hour 0 |
| TaskScreen.TaskScreen.constructor | app/TaskScreen.tsx:30-40 | no tasks; empty input; no task or calendar chosen; no dialog open; the date picker and the time picker each at its own clock reading |
| TaskScreen.TaskScreen.SaveTasks | app/TaskScreen.tsx:60-66 | after a successful write the store holds exactly the given list under `tasks`; after a failed write it is unchanged |
| TaskScreen.TaskScreen.AddTask | app/TaskScreen.tsx:68-81 | `tasks := AddTask(old tasks, input, id)`. A blank input writes nothing and keeps the input. Otherwise the input is cleared and the new list persisted. Ids stay unique |
| TaskScreen.TaskScreen.ToggleTask | app/TaskScreen.tsx:83-89 | `tasks := ToggleTask(old tasks, id)`; ids stay unique; the new list is persisted |
| TaskScreen.TaskScreen.DeleteTask | app/TaskScreen.tsx:91-108 | `tasks := DeleteTask(old tasks, id)`; ids stay unique; the new list is persisted |
| TaskScreen.TaskScreen.AddToCalendar | app/TaskScreen.tsx:122-125 | the task is remembered and the calendar list is the dialog shown |
| TaskScreen.TaskScreen.CloseCalendarModal | app/TaskScreen.tsx:266-272 | dismissing closes only the calendar list |
| TaskScreen.TaskScreen.HandleCalendarSelect | app/TaskScreen.tsx:127-131 | the calendar is remembered, its list closes, the date picker is the dialog shown, and still only one dialog is open |
| TaskScreen.TaskScreen.HandleDateChange | app/TaskScreen.tsx:133-139 | the date picker closes. A delivered date is stored and opens the time picker; a dismissal returns to no dialog and keeps the old date |
| TaskScreen.TaskScreen.SaveEventToCalendar | app/TaskScreen.tsx:149-186 | with a remembered task and calendar, it requests `EventFor(title, selectedDate, selectedTime)` in that calendar. On success the returned id is linked to that task and the list persisted; on failure, or with nothing chosen, nothing changes |
| TaskScreen.TaskScreen.HandleTimeChange | app/TaskScreen.tsx:141-147 | as written: the picker closes and a picked time is stored, but the requested event is built from the previous `selectedTime`; a dismissal saves nothing |
| TaskScreen.TaskScreen.HandleTimeChangeWithPickedTime | app/TaskScreen.tsx:141-154 | corrected: the event starts on the selected date's day at exactly the picked hour and minute |
| Editor.StripHtmlChars | app/AddNote.tsx:64-66 | the output only uses characters of the input |
| Editor.StripHtmlNoOpenBracket | app/AddNote.tsx:64-66 | text without `<` is returned unchanged |
| Editor.StripHtmlTagFree | app/AddNote.tsx:64-66 | no `<` in the output is later followed by a `>`, so nothing is left for the pattern to match |
| Editor.StripHtmlTagFreeFixed | app/AddNote.tsx:64-66 | text with nothing for the pattern to match is returned unchanged |
| Editor.StripHtmlIdempotent | app/AddNote.tsx:64-66 | stripping twice is stripping once |
| Editor.StripHtmlLeadingSegment | app/AddNote.tsx:64-66 | a leading `<...>` segment (with no `>` inside) is removed together with both brackets |
| Editor.StripHtmlKeepsPlainPrefix | app/AddNote.tsx:64-66 | text without `<` in front of anything is kept as is, and the rest is stripped |
| Editor.StripHtmlRemovesSegment | app/AddNote.tsx:64-66 | the first `<...>` segment (with no `>` inside) is removed together with both brackets, and the text before it is kept |
| Editor.FlipSpec | app/AddNote.tsx:85-99 | exactly the named format flag is flipped; flipping it again restores all three flags |
| Editor.NoteEditor.constructor | app/AddNote.tsx:36-42 | fields come from the note being edited or from defaults: empty text, no image, the first category if there is one, no formatting. An empty image or category falls back the way `\|\|` does |
| Editor.NoteEditor.FormatText | app/AddNote.tsx:85-99 | the flags become `Flip(old flags, kind)` |
| Editor.NoteEditor.HandleSave | app/AddNote.tsx:68-83 | returns no payload exactly when the title is whitespace only. Otherwise the payload holds the untrimmed title, the content, image, category and the three flags |

## Left out

- Rendering, themes, language strings, navigation, ads, modals' visual state
  (`showAddNote`, `showCategoryModal`, `showSortModal`) and the note colour
  field: they do not affect the stored data.
- Loading notes and tasks from storage at mount, and JSON (de)serialisation:
  the store holds the lists as values.
- The asynchronous order of React updates and storage writes. The direct
  `saveNotes()` calls at app/_layout.tsx:260 and :270 run against the previous
  render's `notes`. The model keeps only the effect's save of the new notes,
  which runs after every change (app/_layout.tsx:209-211). The race between
  the initial load and the first save is not modelled either.
- The calendar permission request and the calendars list
  (app/TaskScreen.tsx:110-120): the chosen calendar is a parameter, and so
  is the service's answer (`EventResult`).
- Time zones and daylight saving: local time is taken to be UTC. ISO date
  strings are milliseconds since the epoch.
- `toLowerCase` and `localeCompare` are locale-dependent and enter as
  parameters. Sorting assumes a consistent `localeCompare`, one whose
  `<= 0` relation is total and transitive.
- NoteStore.NotesApp.HandleSaveNote: assumes a clock that never runs
  backwards. A create requires its two readings in order (`now <= later`),
  and an edit requires `now` to be no earlier than any stored `createdAt`.
  The source reads the wall clock and guarantees neither, so a clock set
  back before an edit stores `updatedAt < createdAt`. The model does not
  cover that case, and the ordered-timestamps part of `Valid()` rests on
  the assumption.
- NoteView.SortNotes: stability of `Array.prototype.sort` is not stated.
  Only permutation and order are proved.
- The `Alert` dialogs: a delete is modelled as its confirmed branch, and the
  cancel branch changes nothing. Error and success alerts are not modelled.
- Sharing and export file I/O (app/_layout.tsx:470-495): only the text that
  is written, `title + "\n\n" + content`, is modelled.
- `pickImage` and the editor's text setters: a picked image or typed text is
  a plain field assignment.
- Categories live in memory only. The source never writes them to storage,
  and the model does the same.
- Closing the calendar list or dismissing a picker does not clear
  `taskToAdd` or `selectedCalendar`, and neither does a completed event. The
  model follows the code here, not a reset after each workflow.
- A delete or toggle on an id that is not present still writes the
  (unchanged) list, as the code does.

## Findings

| source | as written | input that shows it | evidently intended | confidence | as-written member | corrected member |
|---|---|---|---|---|---|---|
| app/TaskScreen.tsx:141-154 | `handleTimeChange` calls `setSelectedTime(time)` and then `saveEventToCalendar()` in the same handler. The save reads `selectedTime` from the current render, so the event uses the previous time reading (the mount instant on first use), not the time just picked | `selectedTime` reads 00:00 (e.g. mounted at midnight UTC); the user picks 10:30; the event starts at 00:00 on the chosen date | the event starts at the picked hour and minute on the picked date | high, not executed | TaskScreen.TaskScreen.HandleTimeChange, CalendarEvent.EarlierTimeMissesPick, CalendarEvent.MidnightInsteadOfHalfPastTen | TaskScreen.TaskScreen.HandleTimeChangeWithPickedTime |
