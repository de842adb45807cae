# YBS print calendar: the calendar engine in Dafny

The YBS print calendar is a desktop application. It scrapes the open orders of a print shop
from its YBS account and lets the user plan them on a month calendar:

- orders are dragged from the orders tree, or from one day to another, onto calendar days;
- each day keeps a note;
- every change can be undone and redone;
- the notes and the day lists are saved to a JSON state file.

This project models the engine behind that window, `YBSApp` in
`ybs_print_calander/gui.py`, with the Tk widgets taken away. It also models the text table that
the command line interface prints (`_format_table` in `ybs_print_calander/cli.py`). Everything
is proved about the model.

The modules follow the parts of the application:

| file | module | what it holds |
|---|---|---|
| `core.dfy` | `Core` | date keys, assignments (order number, company), the two day-keyed maps of the store |
| `text.dfy` | `Text` | the string functions the engine relies on: `strip` over Python's whitespace set, `lower` on the Basic Latin, Latin-1, Latin Extended-A and basic Cyrillic capitals, `split`, `join`, and `int()` on ASCII digits |
| `date_keys.dfy` | `DateKeys` | the `YYYY-MM-DD` form of a date key and its parser |
| `state_codec.dfy` | `StateCodec` | a JSON value datatype; the dict `json.load` builds from an object (one member per name, at its first place, with its last value); `_load_state` and `_save_state` as conversions between it and the store |
| `history.dfy` | `History` | snapshot actions, their normalisation, the two stacks bounded at 100, undo and redo |
| `store.dfy` | `Store` | the store changes: saving a note, deleting selected orders, the day dialog, clearing a day, assigning an order |
| `drop.dfy` | `Drop` | `_handle_calendar_drop`: payload, removal from the source day, append to the target day, selection adjustment, the undo entry |
| `selection.dfy` | `Selection` | tree and list-box selections over row positions; keyboard navigation and presses |
| `drag.dfy` | `Drag` | `_drag_data`, the per-axis threshold, the deferred ctrl-toggle, and press, motion and release |
| `messages.dfy` | `Messages` | assignment labels, status messages, and the orders filter |
| `geometry.dfy` | `Geometry` | the month change and clamping a window to its monitor |
| `table.dfy` | `Table` | `_format_table` and `str.center` |
| `app.dfy` | `App` | the class `CalendarApp`: the fields the handlers change, and the handlers as methods |

Each operation that updates the application in place is a method of `App.CalendarApp`. Its
`ensures` gives the whole new state as a function of the other modules. It also keeps the
application invariant:

- no day maps to an empty list;
- both stacks are bounded and hold well-formed, canonical snapshots;
- the month is in 1..12;
- the tree selection stays inside the tree's rows.

The loops of the source are methods proved equal to the functions that specify them:

- the reverse `pop` loop of a delete;
- the index search, append and adjustment loops of a drop;
- the carry loops of `_change_month`, and the loop of `_render_calendar` that saves every shown day's note;
- the filter loop;
- the width and line loops of `_format_table`.

Some behaviours of the code are easy to misread; the model follows the code:

- The drag threshold is per axis: a drag begins once the mouse has moved 5 pixels along
  either axis. It is not a Euclidean distance (`Drag.ThresholdIsPerAxis`).
- A same-day drop of orders that are found on the day removes them and appends them again at
  the end. It pushes an undo entry like any other change.
- A press in a day list does not clear the tree selection. A press in the tree clears every day
  list.
- A ctrl-click in a day list toggles the row at once. Only the orders tree defers the
  toggle-off to the release.
- After a drop onto another day, `_handle_calendar_drop` first gives the source day its adjusted
  selection. Its final `_clear_other_day_selections(target)` then clears that selection
  again, so in effect the source list ends with no selection.

## Model

| member | source | states |
|---|---|---|
| Core.DayOrders | ybs_print_calander/gui.py:3716 | a day's list is its stored list, and the empty list for a day without a key |
| Core.NormalizeAssignment | ybs_print_calander/gui.py:312-317 | the pair keeps the first two values and ignores the rest; a shorter row is padded with empty strings |
| Core.NormalizeAssignmentValues | ybs_print_calander/gui.py:312-317 | normalising the values of a pair gives the pair back (normalisation is idempotent) |
| Core.NormalizeDateKey | ybs_print_calander/gui.py:684-690 | a history key is accepted exactly when it has three components, and the result has those components |
| Core.NormalizeKeyTuple | ybs_print_calander/gui.py:684-690 | the tuple form of every date key normalises back to that key |
| Text.UnsignedDropsOneSign | ybs_print_calander/gui.py:307-308 | at most one character is dropped, from the front, and exactly when it is a sign |
| Text.ParseIntSpec | ybs_print_calander/gui.py:307-308 | `int()` succeeds exactly when the stripped text is an optional sign followed by digits with single underscores between them, and then gives the signed value of the digits |
| Text.ParseIntReads | ybs_print_calander/gui.py:307-308 | any whitespace, an optional sign, such a digit run and any whitespace read as the signed value of the digits |
| Text.LowerChar | ybs_print_calander/gui.py:3962 | lower-casing changes exactly the capitals of the covered alphabets and leaves no such capital behind |
| Text.ParseDecimal | ybs_print_calander/gui.py:307-308 | `int()` reads the decimal digits of every natural number back as that number |
| Text.ParseZeroPadded | ybs_print_calander/gui.py:298-308 | leading zeros do not change what `int()` reads |
| Text.SplitCount | ybs_print_calander/gui.py:304-306 | `split("-")` gives one more part than there are separators |
| Text.SplitJoin | ybs_print_calander/gui.py:304 | joining the parts of a split with the separator gives the string back |
| Text.StripBlank | ybs_print_calander/gui.py:2026-2057 | stripping a text leaves nothing exactly when it is all whitespace |
| DateKeys.FormatPadded | ybs_print_calander/gui.py:298 | a non-negative number is written in digits only; a negative one starts with "-" |
| DateKeys.Deserialize | ybs_print_calander/gui.py:300-310 | a key is read only when it splits into exactly three parts at "-" |
| DateKeys.RoundTrip | ybs_print_calander/gui.py:288-310 | a date key with non-negative components reads back from its serialized form as itself |
| DateKeys.NegativeDoesNotRoundTrip | ybs_print_calander/gui.py:288-310 | a key with a negative component gains a fourth "-" part and does not read back |
| DateKeys.RoundTripIff | ybs_print_calander/gui.py:288-310 | read-back succeeds if and only if every component is non-negative |
| DateKeys.SerializeInjective | ybs_print_calander/gui.py:288-298 | distinct non-negative keys give distinct strings, so the saved objects have one member per day |
| DateKeys.DeserializeNeedsTwoDashes | ybs_print_calander/gui.py:304-306 | a fact of the model behind `DateKeys.RoundTripIff`: a key that reads back holds exactly two "-" |
| StateCodec.Lookup | ybs_print_calander/gui.py:621-629 | `dict.get` finds a member of that name, and finds none only when no member has that name |
| StateCodec.NameIndex | ybs_print_calander/gui.py:614 | the position of a name in the dict being built, or -1 exactly when the name is absent |
| StateCodec.MembersSpec | ybs_print_calander/gui.py:614 | the dict `json.load` builds from an object has one member per name, covers every name of the object, holds the last value given for each name, and keeps the names in the order in which they first appear |
| StateCodec.MembersOfDistinct | ybs_print_calander/gui.py:614 | an object whose names are all different is read as written |
| StateCodec.EntryToAssignment | ybs_print_calander/gui.py:637-643 | a list entry becomes a pair, a bare string `s` becomes `(s, "")`, and any other entry is dropped |
| StateCodec.ReprQuote | ybs_print_calander/gui.py:639-640 | `repr` quotes a string with `"` exactly when it holds a `'` and no `"`, and with `'` otherwise |
| StateCodec.ReprChar | ybs_print_calander/gui.py:639-640 | a character is written as it is exactly when `repr` prints it (not the quote, the backslash, a control, DEL, U+00A0 or U+00AD); otherwise it becomes a backslash escape |
| StateCodec.StrRepr | ybs_print_calander/gui.py:639-640 | the repr of a string begins and ends with its chosen quote |
| StateCodec.PlainReprChars | ybs_print_calander/gui.py:639-640 | a text with nothing to escape appears unchanged between the quotes |
| StateCodec.NormalizeEntriesEmpty | ybs_print_calander/gui.py:636-645 | a day's normalised list is empty exactly when none of its entries is a list or a string |
| StateCodec.LoadNotesLastWins | ybs_print_calander/gui.py:621-627 | over the members the loop iterates (the dict's, in which every name is distinct): a string member whose name reads back as a day is loaded as that day's note unless a later string member names the same day; with `LoadedNotesComeFromFile` the loaded notes are exactly the last string member of each day |
| StateCodec.LoadedNotesComeFromFile | ybs_print_calander/gui.py:621-627 | every loaded note comes from a string member whose key reads back as that day |
| StateCodec.NoteOfOnlyMember | ybs_print_calander/gui.py:623-627 | when only one member reads as a day, that day gets a note exactly when the member is a string, and the note is its text |
| StateCodec.DayOfOnlyMember | ybs_print_calander/gui.py:631-646 | when only one member reads as a day, that day is loaded exactly when the member is a list that normalises to something, and it holds the normalised list |
| StateCodec.OnlyMemberOfName | ybs_print_calander/gui.py:614 | when only one name of the object reads as a day, the dict holds that name exactly when the object has it, with its last value, and no other member of the dict reads as that day |
| StateCodec.LoadedNoteOfName | ybs_print_calander/gui.py:614-627 | a day named by one name only gets a note exactly when the last value given for that name is a string, whatever the earlier members with that name held |
| StateCodec.LoadedDayOfName | ybs_print_calander/gui.py:614-646 | a day named by one name only is loaded exactly when the last value given for that name is a list that normalises to something, whatever the earlier members with that name held |
| StateCodec.AddNoteChangesOneDay | ybs_print_calander/gui.py:623-627 | a notes member changes at most the note of the one day its name reads as: that day gets the text when it is a string, and every other day keeps its note or its absence |
| StateCodec.AddDay | ybs_print_calander/gui.py:631-646 | adding a day member never introduces an empty day |
| StateCodec.LoadAssignments | ybs_print_calander/gui.py:629-646 | the loaded assignments have no empty day |
| StateCodec.EmptyDayIsDropped | ybs_print_calander/gui.py:645-646 | a day whose normalised list is empty is not loaded |
| StateCodec.NotesOf | ybs_print_calander/gui.py:621-622 | a `notes` member that is missing or not an object gives no notes |
| StateCodec.DaysOf | ybs_print_calander/gui.py:629-630 | an `assignments` member that is missing or not an object gives no days, and a loaded map has no empty day |
| StateCodec.Load | ybs_print_calander/gui.py:607-649 | a missing or unreadable file loads as an empty store, and a loaded store has no empty day |
| StateCodec.SaveEntries | ybs_print_calander/gui.py:658-661 | each saved day list has one entry per assignment |
| StateCodec.Save | ybs_print_calander/gui.py:651-663 | the saved value is an object with exactly the two members `notes` and `assignments`, in that order, each an object with one member per day |
| StateCodec.EntriesRoundTrip | ybs_print_calander/gui.py:636-661 | a saved day list loads back as the same list |
| StateCodec.NotesRoundTrip | ybs_print_calander/gui.py:621-657 | the saved notes load back as the same notes |
| StateCodec.AssignmentsRoundTrip | ybs_print_calander/gui.py:629-661 | the saved assignments load back as the same assignments |
| StateCodec.LoadSavedObject | ybs_print_calander/gui.py:620-649 | an object with `notes` and `assignments` members loads as the two maps read from the dicts of those members |
| StateCodec.SerializeAllAt | ybs_print_calander/gui.py:653-656 | the saved name of the `i`-th day is that day serialised |
| StateCodec.SaveNotesNames | ybs_print_calander/gui.py:653-656 | the `notes` object `_save_state` writes names its days in dict order |
| StateCodec.SaveAssignmentsNames | ybs_print_calander/gui.py:657-660 | the `assignments` object names its days in dict order |
| StateCodec.SavedNotesDistinct | ybs_print_calander/gui.py:653-656 | the saved `notes` object has no repeated name, so `json.load` reads it back as written |
| StateCodec.SavedDaysDistinct | ybs_print_calander/gui.py:657-660 | the saved `assignments` object has no repeated name |
| StateCodec.SaveLoadRoundTrip | ybs_print_calander/gui.py:607-663 | a store without empty days and with non-negative keys loads back from its saved form unchanged, whatever the dict order |
| History.KeysOf | ybs_print_calander/gui.py:831 | the days of an action, in dict order |
| History.FindKey | ybs_print_calander/gui.py:747 | the position of a day in the `dates` dict, or -1 exactly when the day is absent |
| History.Put | ybs_print_calander/gui.py:747-750 | `d[k] = v`: a new day goes at the end; an existing day keeps its place; days stay distinct |
| History.RestoreDay | ybs_print_calander/gui.py:843-853 | restoring a day puts back its captured non-empty list or removes its key, and changes no other day |
| History.RestoreNote | ybs_print_calander/gui.py:886-900 | restoring a note puts back the captured string, even an empty one, or removes the key; no other note changes |
| History.CaptureAll | ybs_print_calander/gui.py:692-704 | one snapshot per listed day, each taken on the same store |
| History.RevertDays | ybs_print_calander/gui.py:826-860 | the undo loop over the days of an action never introduces an empty day |
| History.HistoryEntry | ybs_print_calander/gui.py:743-748 | an entry of a history list is kept exactly when it is a list |
| History.NormalizeDayInfo | ybs_print_calander/gui.py:734-735 | an info value that is not a dict gives no key and no list |
| History.NormalizeDates | ybs_print_calander/gui.py:726-752 | the normalised `dates` names each day once, and keys that are not triples are dropped |
| History.NormalizeNotePrevious | ybs_print_calander/gui.py:761-766 | a string is kept, `None` stays `None`, and any other value becomes its `str()` |
| History.NormalizeAction | ybs_print_calander/gui.py:713-775 | other kinds, a missing or empty `dates`, and a notes key that is not a triple are rejected; every accepted action is well formed |
| History.NormalizeToRaw | ybs_print_calander/gui.py:713-775 | normalising the dict built from a well-formed action gives that action back |
| History.Trim | ybs_print_calander/gui.py:785-788 | trimming keeps the newest entries and at most `limit` of them, and removes nothing from a stack within the limit |
| History.PushUndo | ybs_print_calander/gui.py:777-790 | a rejected action changes nothing; otherwise it goes on top, the stack never exceeds 100 entries, only the oldest are dropped, and the redo stack is cleared unless `clear_redo` is false |
| History.PushRedo | ybs_print_calander/gui.py:792-800 | the same for the redo stack, bounded at 100, with the undo stack left alone |
| History.Revert | ybs_print_calander/gui.py:826-900 | applying a popped action never introduces an empty day |
| History.RestoredText | ybs_print_calander/gui.py:862-872 | the status names the restored days, and is missing only for an action with no day |
| History.Undo | ybs_print_calander/gui.py:802-935 | on an empty stack, "Nothing to undo." and nothing else changes; otherwise the newest undo action is popped, and no empty day appears |
| History.Redo | ybs_print_calander/gui.py:937-1075 | the mirror of `Undo`, with "Nothing to redo." |
| History.RevertDaysFrame | ybs_print_calander/gui.py:826-860 | an undo changes no day outside its action |
| History.RevertDaysAt | ybs_print_calander/gui.py:843-853 | after an undo each listed day holds its captured list, or has no key when that list is empty |
| History.RevertDaysCaptured | ybs_print_calander/gui.py:826-860 | the redo entry pushed by an undo is the snapshot of the listed days taken just before the undo |
| History.CaptureAfterRevert | ybs_print_calander/gui.py:836-853 | re-capturing the restored days gives the undone action back |
| History.RevertCaptured | ybs_print_calander/gui.py:826-860 | restoring the snapshots of some days undoes any change confined to those days |
| History.UndoRevertsRecorded | ybs_print_calander/gui.py:802-935 | an undo right after a recorded change restores the store from before the change |
| History.CaptureCanonical | ybs_print_calander/gui.py:692-704 | a store without empty days gives canonical snapshots: a key goes with a non-empty list |
| History.RevertRevert | ybs_print_calander/gui.py:802-1075 | applying an action and then its inverse gives back both the store and the action |
| History.RevertDaysRevert | ybs_print_calander/gui.py:826-995 | the same, for the day loop of undo and redo |
| History.UndoneRedone | ybs_print_calander/gui.py:802-1075 | redoing an undone step restores the whole history, given room on the redo stack |
| History.RedoneUndone | ybs_print_calander/gui.py:802-1075 | undoing a redone step restores the whole history, given room on the undo stack |
| History.RedoAfterUndo | ybs_print_calander/gui.py:802-1075 | undo then redo restores the store and both stacks |
| History.UndoAfterRedo | ybs_print_calander/gui.py:802-1075 | redo then undo restores the store and both stacks |
| History.UndoKeepsValid | ybs_print_calander/gui.py:802-935 | undo keeps the invariant: no empty day, and bounded stacks of canonical snapshots |
| History.RedoKeepsValid | ybs_print_calander/gui.py:937-1075 | redo keeps the invariant |
| History.PushUndoKeepsValid | ybs_print_calander/gui.py:777-790 | pushing a canonical snapshot keeps the invariant |
| History.PushUndoWithRoom | ybs_print_calander/gui.py:777-790 | below the limit a push appends the action exactly |
| History.PushRedoWithRoom | ybs_print_calander/gui.py:792-800 | below the limit a redo push appends the action exactly |
| Store.KeepPickSplit | ybs_print_calander/gui.py:2081-2112 | every order of a day goes either to the kept list or to the removed list: together they are a permutation of the day |
| Store.KeepPop | ybs_print_calander/gui.py:2095-2099 | popping one position below all the others removes that order from the kept list and puts it first among the removed ones |
| Store.SortedIndices | ybs_print_calander/gui.py:2081-2085 | the valid selection is ascending, holds only rows of the day, and holds every selected row of the day |
| Store.PopIndices | ybs_print_calander/gui.py:2095-2100 | the reverse `pop` loop leaves exactly the unselected orders and returns exactly the selected ones, both in list order |
| Store.SetDay | ybs_print_calander/gui.py:2101-2104 | storing a day's list changes only that day; an emptied day loses its key |
| Store.RecordThenChange | ybs_print_calander/gui.py:692-790 | recording a snapshot and then changing only the recorded days keeps the invariant, and undo then restores the store |
| Store.SaveDayNote | ybs_print_calander/gui.py:2026-2057 | saving a note changes only the notes: a blank text removes the note, any other text is stored as typed |
| Store.SaveDayNotePushesIffChanged | ybs_print_calander/gui.py:2035-2050 | nothing happens, and no history is pushed, exactly when the save would not change the notes |
| Store.SaveDayNoteValid | ybs_print_calander/gui.py:2026-2057 | a note save keeps the invariant |
| Store.SaveDayNoteUndo | ybs_print_calander/gui.py:2026-2057 | undo after a note save that changed something restores the previous notes |
| Store.RestoreStored | ybs_print_calander/gui.py:886-900 | the snapshot taken before a note is stored puts the old note back |
| Store.EditorText | ybs_print_calander/gui.py:1680-1682 | an editor with nothing typed and no stored note is empty |
| Store.SaveShownNotes | ybs_print_calander/gui.py:1485-1487 | saving the shown notes before a redraw changes no assignment and no note of a day outside the saved days |
| Store.SaveShownNotesValid | ybs_print_calander/gui.py:1485-1487 | saving the shown notes keeps the history invariant |
| Store.SaveShownNotesEffect | ybs_print_calander/gui.py:2026-2057 | over distinct days each shown day ends with its editor's text as its note, or with no note when that text is blank, so an untouched empty or blank note is dropped; a state save is scheduled exactly when the notes changed |
| Store.DeleteSelectedFails | ybs_print_calander/gui.py:2081-2092 | a delete fails, and changes nothing, exactly when no selected row is a row of the day |
| Store.DeleteSelectedEffect | ybs_print_calander/gui.py:2059-2119 | a delete keeps exactly the unselected orders in their order, reports the selected ones, changes no other day, keeps the invariant and can be undone |
| Store.RemoveSelected | ybs_print_calander/gui.py:2223-2257 | after a dialog removal the dialog keeps a selected row exactly when the day still has orders |
| Store.RemoveSelectedEffect | ybs_print_calander/gui.py:2223-2257 | the dialog removes exactly its first selected row, and nothing without a valid selection; the next selected row exists; the invariant is kept and the removal can be undone |
| Store.ClearDayEffect | ybs_print_calander/gui.py:2259-2280 | clearing succeeds exactly for a day with orders, removes only that day, reports the count, keeps the invariant and can be undone |
| Store.AssignOrderEffect | ybs_print_calander/gui.py:3685-3709 | an order is appended to the day unless already there; the result says whether it was new; no other day changes |
| Store.AssignOrderUndoable | ybs_print_calander/gui.py:3685-3709 | an assignment keeps the invariant, and with an undo snapshot it can be undone |
| Store.AssignOrderNoDuplicates | ybs_print_calander/gui.py:3697-3706 | assigning never puts a second copy of an order on a day |
| Drop.NormalizeOrders | ybs_print_calander/gui.py:3450-3460 | one normalised pair per payload order |
| Drop.ReadPayload | ybs_print_calander/gui.py:3425-3538 | a drop is ignored exactly when the key is not a triple or there are no orders; an accepted drop deselects only on a move to another day |
| Drop.FirstMatch | ybs_print_calander/gui.py:3555-3561 | the first unused row holding the order, or none exactly when no unused row holds it |
| Drop.FindFirstUnused | ybs_print_calander/gui.py:3555-3561 | the search loop finds that first match |
| Drop.ChooseIndex | ybs_print_calander/gui.py:3546-3561 | the hint is used when it is in range, unused and holds the order; otherwise the result is the first-match search, i.e. the lowest unused equal row; none only when there is no such row |
| Drop.FindRemovalIndices | ybs_print_calander/gui.py:3540-3564 | the removal loop computes the rows that `RemovalIndices` specifies |
| Drop.RemovalIndicesValid | ybs_print_calander/gui.py:3540-3564 | at most one row per dragged order, no row twice, each row inside the list and holding a dragged order |
| Drop.ExactHintsAreRemoved | ybs_print_calander/gui.py:3531-3564 | hints that point exactly at the dragged orders are the rows removed |
| Drop.DragMoveRemovesSelection | ybs_print_calander/gui.py:3540-3564 | a day-list drag onto another day takes out exactly the dragged rows |
| Drop.IndexOf | ybs_print_calander/gui.py:3581 | `list.index`: the first row holding the order |
| Drop.AppendMissing | ybs_print_calander/gui.py:3577-3586 | the target loop computes what `Appended` specifies |
| Drop.AppendedValid | ybs_print_calander/gui.py:3577-3586 | the target keeps its earlier orders in front and gains only dropped orders; each dropped order is at the row reported for it; the flag says whether the list grew |
| Drop.AppendedNoDuplicates | ybs_print_calander/gui.py:3579-3585 | the target never gains a duplicate |
| Drop.AdjustSelection | ybs_print_calander/gui.py:3590-3603 | the adjustment loop computes what `Adjusted` specifies |
| Drop.CountRemovedBelow | ybs_print_calander/gui.py:3599 | the counting generator counts the removed rows below the index |
| Drop.AdjustEachOrigin | ybs_print_calander/gui.py:3596-3602 | every adjusted row is a selected row that was not removed, moved up by the number of removed rows above it |
| Drop.KeepShift | ybs_print_calander/gui.py:3566-3569 | after the pops, a kept row moves up by the number of rows removed above it |
| Drop.AdjustedSelectsSameOrders | ybs_print_calander/gui.py:3590-3603 | the adjusted selection selects the same orders in the list after removal |
| Drop.AddNew | ybs_print_calander/gui.py:3612-3618 | append-if-absent gives the union, with each row once |
| Drop.AppendNew | ybs_print_calander/gui.py:3612-3618 | the append-if-absent loops compute `AddNew` |
| Drop.CombinedSelection | ybs_print_calander/gui.py:3605-3620 | the target's new selection has each row once and holds every dropped order's row; it is empty on a move to another day |
| Drop.InRange | ybs_print_calander/gui.py:3651 | only indices inside the list box are kept, and all of them |
| Drop.DropContents | ybs_print_calander/gui.py:3540-3586 | every dropped order sits on the target at its reported row; the target keeps its earlier orders and gains nothing else; no duplicate; the source loses exactly the chosen rows |
| Drop.DropFrame | ybs_print_calander/gui.py:3566-3680 | only the target and the source change; no empty day appears; the undo entry covers every changed day, and is empty exactly when nothing was added or removed |
| Drop.DropKeepsDays | ybs_print_calander/gui.py:3571-3586 | a drop never leaves an empty day |
| Drop.DropUndoKeys | ybs_print_calander/gui.py:3668-3680 | the undo entry names distinct days, covers every changed day, and is empty exactly when nothing changed |
| Drop.FirstDroppedIn | ybs_print_calander/gui.py:3579-3586 | the first dropped order is on the target afterwards |
| Drop.AppendedNothing | ybs_print_calander/gui.py:3577-3586 | when nothing was appended the target list is unchanged |
| Drop.DropUndo | ybs_print_calander/gui.py:3668-3683 | a drop keeps the invariant, and undo restores the store from before the drop |
| Drop.DropNoChange | ybs_print_calander/gui.py:3679-3683 | a drop that changed nothing pushes no history |
| Drop.DropHistoryValid | ybs_print_calander/gui.py:3668-3680 | every drop keeps the history invariant |
| Selection.Span | ybs_print_calander/gui.py:2530-2536 | the rows between two rows, inclusive, in either order |
| Selection.Clamp | ybs_print_calander/gui.py:2517-2518 | `max(0, min(i, n - 1))` is a row, and the index itself when it is a row |
| Selection.NormalizeAnchor | ybs_print_calander/gui.py:2402-2407 | the anchor is kept while it names a shown row, and dropped otherwise |
| Selection.TreeStart | ybs_print_calander/gui.py:2505-2515 | navigation starts at the focus when it is shown |
| Selection.NavigateTree | ybs_print_calander/gui.py:2492-2545 | the focus moves one clamped step; shift selects the run from the anchor to the focus; a plain step selects just the focus and makes it the anchor; an empty tree changes nothing |
| Selection.NavigateTreeSteps | ybs_print_calander/gui.py:2492-2545 | a step inside the rows moves the focus by exactly one row, and it never moves past the first or last row |
| Selection.TreePress | ybs_print_calander/gui.py:2547-2660 | a press between rows clears the selection unless ctrl or shift is held; shift selects from the anchor; ctrl adds the row, and defers deselecting an already selected row to the release; a plain press on an unselected row selects just it |
| Selection.ClearTree | ybs_print_calander/gui.py:3385-3413 | clearing the tree leaves no selection, anchor or focus |
| Selection.DayPress | ybs_print_calander/gui.py:2797-2923 | a press on a row prepares a drag; ctrl flips just that row at once; shift selects from the day's anchor; a plain press keeps a selection that holds the row, and otherwise selects just the row |
| Selection.DayCtrlPressTwice | ybs_print_calander/gui.py:2872-2877 | two ctrl-clicks on a day-list row leave its selection as it was |
| Selection.ListStart | ybs_print_calander/gui.py:2944-2968 | list navigation starts at the active row, then the last selected row, then the stored anchor |
| Selection.DayKeyNavigate | ybs_print_calander/gui.py:2925-3021 | the active row moves one clamped step; shift selects from the anchor; ctrl only moves the active row; a plain step selects just the target and anchors it; an empty list drops the anchor |
| Selection.ClearOthers | ybs_print_calander/gui.py:3353-3383 | every shown day list except the kept one loses its selection, and nothing else changes |
| Drag.ThresholdIsPerAxis | ybs_print_calander/gui.py:2685-2691 | a crossing move is at least 5 pixels long; every move of at least sqrt(50) pixels crosses; the diagonal (4, 4), about 5.7 pixels, does not |
| Drag.DragLabel | ybs_print_calander/gui.py:3190-3199 | one order shows its label; two or three show their count and all their labels joined by ", "; more show the count, the first three labels and ", ..." |
| Drag.DragLabelShows | ybs_print_calander/gui.py:3190-3199 | several orders' label starts with "N orders: ", shows each of the first three labels, and ends with ", ..." when there are more than three |
| Drag.DragLabelEmptyIff | ybs_print_calander/gui.py:3190-3199 | the drag window's label is empty exactly when nothing is dragged |
| Drag.Restore | ybs_print_calander/gui.py:2409-2482 | restoring puts back the snapshot rows still shown, the focus and the anchor of the drag's source, and nothing else |
| Drag.Refilled | ybs_print_calander/gui.py:3961-3976 | after a refill a tree drag keeps its orders, its start point and whether it is active, but no longer names a snapshot row, a pressed row or an anchor, and cannot toggle; a day-list drag is unchanged |
| Drag.RefilledReleaseSelectsNothing | ybs_print_calander/gui.py:2416-2437 | a tree drag released after a refill restores no tree selection and no anchor, and still queues its drop exactly when it is active |
| Drag.ValuesAt | ybs_print_calander/gui.py:2640-2650 | the dragged orders are the orders behind the selected rows |
| Drag.PressTree | ybs_print_calander/gui.py:2547-2660 | a tree press clears every day list; the tree follows `TreePress`; the drag data records the selected rows in order, their orders, the start point and the deferred toggle |
| Drag.SetAnchor | ybs_print_calander/gui.py:2855-2880 | a frame fact of the model: setting one day's anchor leaves every other day's anchor alone |
| Drag.PressDay | ybs_print_calander/gui.py:2797-2923 | a day press clears the other day lists; the day follows `DayPress`; the drag records the selected rows as index hints, their orders and the day |
| Drag.Begin | ybs_print_calander/gui.py:3179-3226 | beginning a drag drops the deferred toggle, labels the window and makes the drag active, and does nothing without dragged rows |
| Drag.Follow | ybs_print_calander/gui.py:2683-2701 | a drag becomes active exactly when it was already active or the mouse crossed the threshold |
| Drag.TreeMotion | ybs_print_calander/gui.py:2662-2701 | moving off the pressed row cancels the deferred toggle, and so does beginning the drag |
| Drag.DayMotion | ybs_print_calander/gui.py:3023-3051 | day-list motion activates the drag on crossing the threshold and keeps its rows |
| Drag.EncodeNormalizes | ybs_print_calander/gui.py:2760-2783 | orders placed in the payload normalise back to the same orders |
| Drag.TreeRelease | ybs_print_calander/gui.py:2703-2795 | a message is queued exactly for an active drag with rows; a drop outside the calendar fails with "Please drop orders onto a valid calendar day." |
| Drag.DayRelease | ybs_print_calander/gui.py:3053-3177 | a message is queued exactly for an active drag released on the day it started from, and the tree is untouched |
| Drag.TreeDropRequest | ybs_print_calander/gui.py:2757-2792 | a tree drop reaches the resolver as the dragged orders with no source, and it clears the tree |
| Drag.DayDropRequest | ybs_print_calander/gui.py:3127-3165 | a day-list drop reaches the resolver with its source day, index hints and orders, and deselects exactly on a move to another day |
| Drag.RestoreAfterPress | ybs_print_calander/gui.py:2409-2482 | a consistency fact of the model: restoring right after a press changes nothing |
| Drag.CtrlClickToggles | ybs_print_calander/gui.py:2717-2741 | a ctrl-click released on the same row without dragging flips that row only; a selected row is deselected at the release |
| Drag.DragCancelsToggle | ybs_print_calander/gui.py:2667-2691 | once a ctrl-press on a selected row becomes a drag, the row stays selected |
| Messages.LabelShowsBoth | ybs_print_calander/gui.py:3735-3744 | a label is never empty and shows both the order number and the company |
| Messages.Capitalize | ybs_print_calander/gui.py:3781-3790 | only the first letter is changed, to upper case |
| Messages.OrderPhrase | ybs_print_calander/gui.py:3769-3776 | the order phrase starts with "order", shows the stripped order number and company, and is the bare word when both are blank |
| Messages.PhraseOf | ybs_print_calander/gui.py:3769-3776 | the number follows "order " and the company closes the phrase in parentheses, each only when present |
| Messages.FormatMoveMessage | ybs_print_calander/gui.py:3756-3791 | empty exactly when no order moved; otherwise "Moved P from S to T." from another day, "P remains scheduled for T." (capitalised, "remain" for several) on the same day, and "Assigned P to T." without a source, where P is the order phrase for one order and "N orders" for several |
| Messages.MoveMessageNames | ybs_print_calander/gui.py:3756-3791 | a move message names its target day, names the source day of a move between days, and shows the count of several orders or both parts of one |
| Messages.FormatBulkRemovalMessage | ybs_print_calander/gui.py:3793-3805 | empty for no orders, the one-order message for one order, and "Removed N orders from D." for more |
| Messages.BulkRemovalNamesDay | ybs_print_calander/gui.py:3793-3825 | every removal status starts with "Removed ", names the day, and gives the count of several orders |
| Messages.RemovalMessageShape | ybs_print_calander/gui.py:3807-3825 | a removal message starts with "Removed order" and ends by naming its day |
| Messages.FilterOrders | ybs_print_calander/gui.py:3961-3976 | the tree shows only matching orders of the order list, in order |
| Messages.ApplyOrderFilter | ybs_print_calander/gui.py:3961-3976 | the filter loop computes `FilterOrders` |
| Messages.FilterKeepsMatches | ybs_print_calander/gui.py:3961-3976 | an order is shown exactly when it matches the stripped, lower-cased filter |
| Messages.BlankFilterShowsAll | ybs_print_calander/gui.py:3969-3976 | a blank filter shows every order |
| Geometry.FromMonthIndex | ybs_print_calander/gui.py:2360-2372 | the month is in 1..12 and has the given month index |
| Geometry.MonthIndexInjective | ybs_print_calander/gui.py:2360-2372 | a year and month in 1..12 are determined by their month index |
| Geometry.ChangeMonth | ybs_print_calander/gui.py:2360-2374 | the carry loops leave a month in 1..12, moved by exactly `delta` months |
| Geometry.ChangeMonthInverse | ybs_print_calander/gui.py:2360-2374 | moving forward and back by the same number of months returns to the shown month |
| Geometry.ClampAxis | ybs_print_calander/gui.py:599-603 | the position is kept inside the monitor, is unchanged when the window already fits, and the window ends inside when it is small enough |
| Geometry.ConstrainToMonitor | ybs_print_calander/gui.py:565-605 | no bounds, or empty bounds, change nothing; otherwise the window starts inside the monitor and ends inside it when it fits |
| Geometry.ConstrainIdempotent | ybs_print_calander/gui.py:565-605 | constraining twice is constraining once |
| Table.CenterShape | ybs_print_calander/cli.py:46-47 | `str.center` returns a wider text unchanged, and otherwise pads to the width with the text at the left padding and spaces elsewhere |
| Table.WidthsAreMaxima | ybs_print_calander/cli.py:26-31 | each width is the maximum of its header's length and its column's values |
| Table.ColumnWidths | ybs_print_calander/cli.py:27-31 | the width loop computes `Widths` |
| Table.Divider | ybs_print_calander/cli.py:33-34 | the divider is as long as both widths plus 7 |
| Table.CollectLines | ybs_print_calander/cli.py:41-52 | the line loop collects divider, header, divider, one line per order in input order, and divider |
| Table.FormatTable | ybs_print_calander/cli.py:25-53 | the output is those lines joined with newlines |
| Table.TableShape | ybs_print_calander/cli.py:41-52 | four lines more than orders; divider lines first, third and last; the header second; line `3 + i` is the row of order `i`; every line as long as the divider |
| Table.LineLength | ybs_print_calander/cli.py:36-50 | every header or row line has exactly the divider's length |
| Table.CellShape | ybs_print_calander/cli.py:46-47 | a cell is the width plus two long, holds the value, and its paddings total `width - len` |
| Table.LineShowsValues | ybs_print_calander/cli.py:43-50 | each row line contains its order number and its company |
| Table.FormatTableLines | ybs_print_calander/cli.py:53 | splitting the output at newlines gives exactly the lines, with no trailing newline |
| App.DayHeaderShowsCount | ybs_print_calander/gui.py:3722-3732 | a day header is the bare day number exactly when the day has no orders; otherwise its parenthesised count reads back as the number of orders |
| App.Redrawn | ybs_print_calander/gui.py:3711-3720 | redrawing keeps the set of shown days; a redrawn day loses its selection and keeps its anchor and active row; every other day is unchanged |
| App.Reselect | ybs_print_calander/gui.py:3662-3664 | `apply_selection` changes only the chosen list box |
| App.DropSelectionsEffect | ybs_print_calander/gui.py:3605-3666 | after a drop the target selects only its rows and every dropped order's row, or nothing on a move to another day, which also forgets both anchors; a tree drop keeps the target's earlier selection; the tree is cleared exactly when a tree drop changed something |
| App.TargetSelected | ybs_print_calander/gui.py:3643-3662 | the target list box ends as the combined selection applied to its redrawn list |
| App.DeleteByPopping | ybs_print_calander/gui.py:2059-2119 | popping the sorted valid rows after the snapshot is the delete `DeleteSelected` describes |
| App.DeletedKeepsValid | ybs_print_calander/gui.py:2059-2119 | a delete keeps the application invariant |
| App.ClearedKeepsValid | ybs_print_calander/gui.py:2259-2280 | clearing a day keeps the application invariant |
| App.DialogRemovedKeepsValid | ybs_print_calander/gui.py:2223-2257 | a dialog removal keeps the application invariant |
| App.AcceptedKeepsValid | ybs_print_calander/gui.py:3425-3683 | an accepted drop keeps the application invariant |
| App.DroppedKeepsValid | ybs_print_calander/gui.py:3425-3683 | handling any drop message keeps the application invariant |
| App.DropTreeValid | ybs_print_calander/gui.py:3640-3641 | a drop keeps the tree selection inside the tree's rows |
| App.RestoreKeepsTreeValid | ybs_print_calander/gui.py:2409-2482 | restoring the drag selection keeps the tree selection inside the tree's rows |
| App.TreeMotionKeepsValid | ybs_print_calander/gui.py:2662-2701 | mouse motion over the tree keeps the application invariant |
| App.DayMotionKeepsValid | ybs_print_calander/gui.py:3023-3051 | mouse motion over a day list keeps the application invariant |
| App.FilteredKeepsValid | ybs_print_calander/gui.py:3961-3976 | refilling the tree with any rows and clearing its selection keeps the application invariant |
| App.TreeReleaseKeepsValid | ybs_print_calander/gui.py:2703-2795 | a release over the tree keeps the application invariant |
| App.CalendarApp.constructor | ybs_print_calander/gui.py:234-286 | a new window holds the loaded store, empty stacks, no selection, no drag and today's month |
| App.CalendarApp.SaveDayNotes | ybs_print_calander/gui.py:2026-2057 | a note save for a shown day changes the history as `SaveDayNote` says, and schedules a save when the notes changed |
| App.CalendarApp.OnDayOrderDelete | ybs_print_calander/gui.py:2059-2119 | the new state is `Deleted` of the old one, and the invariant is kept |
| App.CalendarApp.PopSelectedRows | ybs_print_calander/gui.py:2093-2112 | the snapshot and the reverse pop loop leave the day with exactly its unselected orders |
| App.CalendarApp.ClearDayOrders | ybs_print_calander/gui.py:2259-2280 | the new state is `Cleared` of the old one |
| App.CalendarApp.OnDayClearRequest | ybs_print_calander/gui.py:1797-1822 | clears the given day, else the day whose header is active, else nothing |
| App.CalendarApp.DialogRemoveSelected | ybs_print_calander/gui.py:2223-2257 | the new state is `DialogRemoved` of the old one, and the result is the row the dialog selects next |
| App.CalendarApp.AssignOrderToDay | ybs_print_calander/gui.py:3685-3709 | the store changes as `AssignOrder` says; the day is redrawn; a save is scheduled when the order was new |
| App.CalendarApp.UndoLastAction | ybs_print_calander/gui.py:802-935 | the new state applies `Undo`: its history, redrawn days, status and save |
| App.CalendarApp.RedoLastAction | ybs_print_calander/gui.py:937-1075 | the new state applies `Redo` |
| App.CalendarApp.HandleCalendarDrop | ybs_print_calander/gui.py:3425-3683 | a refused drop only shows its message; an accepted one changes the state as `Accepted` says |
| App.CalendarApp.OnOrderPress | ybs_print_calander/gui.py:2547-2660 | the selections and the drag data become those of `PressTree` |
| App.CalendarApp.OnOrderDrag | ybs_print_calander/gui.py:2662-2701 | the selections and the drag data become those of `TreeMotion` |
| App.CalendarApp.OnOrderRelease | ybs_print_calander/gui.py:2703-2795 | the selections follow `TreeRelease`; a queued drop is handled; the drag data is reset |
| App.CalendarApp.NavigateTreeWithKeyboard | ybs_print_calander/gui.py:2492-2545 | the tree selection becomes `NavigateTree` of the old one |
| App.CalendarApp.ApplyOrderFilter | ybs_print_calander/gui.py:3961-3976 | the tree shows `FilterOrders` of the order list and loses its selection; a held tree press forgets the rows it recorded, as `Drag.Refilled` says, since the refill gives every row a new id |
| App.CalendarApp.RefillTree | ybs_print_calander/gui.py:3961-3976 | the delete and insert loops leave the tree showing `FilterOrders` of the order list with no selection, and change nothing else |
| App.CalendarApp.ForgetTreeDragRows | ybs_print_calander/gui.py:3966-3967 | after the refill the drag data becomes `Drag.Refilled` of the old one, the invariant is kept and nothing else changes |
| App.CalendarApp.PopulateOrders | ybs_print_calander/gui.py:3957-3959 | the order list is replaced and refiltered with the current filter, and a held tree press forgets the rows it recorded |
| App.CalendarApp.OnDayOrderPress | ybs_print_calander/gui.py:2797-2923 | the selections and the drag data become those of `PressDay` |
| App.CalendarApp.OnDayOrderDrag | ybs_print_calander/gui.py:3023-3051 | the selections and the drag data become those of `DayMotion` |
| App.CalendarApp.OnDayOrderRelease | ybs_print_calander/gui.py:3053-3177 | the selections follow `DayRelease`; a queued drop is handled; the drag data is reset |
| App.CalendarApp.OnDayOrderKeyNavigate | ybs_print_calander/gui.py:2925-3021 | the day list and its anchor become those of `DayKeyNavigate`; a day that is not shown changes nothing |
| App.CalendarApp.ChangeMonth | ybs_print_calander/gui.py:2360-2374 | every shown day's note is first saved as `SaveShownNotes` says, with a state save scheduled when a note changed; then the month moves by `delta` with the year carried, the shown days get fresh lists, and a header stays active only while it is shown |
| App.CalendarApp.SaveShownDays | ybs_print_calander/gui.py:1485-1487 | the save loop over the day cells changes the history and the save flag exactly as `SaveShownNotes` says and nothing else |

## Left out

- Tk widgets, styling, layout, tooltips and hover colouring (`_configure_style`, `_build_layout`, the drawing part of `_render_calendar`, `HoverTooltip`, `_apply_day_cell_*`). Their effect is reduced to the selection state they carry. The days a calendar page shows, and the texts typed into the note editors, are parameters. The note saves `_render_calendar` makes before it destroys the old cells are modelled (`App.CalendarApp.SaveShownDays`).
- The floating drag window's position (`_position_drag_window`) and the day under the mouse (`_detect_calendar_target`, the hover highlighting). The row and the day under the mouse are inputs of the handlers.
- `_get_monitor_bounds`: it works through ctypes, `screeninfo`, an `xrandr` subprocess and Tk geometry. The bounds are an input of `Geometry.ConstrainToMonitor`.
- The native undo of the note text widget, in `_undo_last_action`, `_redo_last_action`, `_invoke_text_widget_undo` and `_invoke_text_widget_redo`. That is widget behaviour.
- File I/O, the `json` library, `mkdir`, and the one-second save debounce (`_schedule_state_save`, `_on_close`). The state file's contents are a `Json` value, or `None` when the file is missing or unreadable. A scheduled save is the flag `savePending`.
- Threads, the message queue, `_poll_queue`, and login and refresh (`_on_login_clicked` through `_handle_login_result`). The `calendar_drop` message is handled by a direct call from the release handlers.
- `_format_date_label`: it depends on `datetime` and locale `strftime`. It is an uninterpreted function, the class constant `dateLabel`.
- `_set_panedwindow_ratio` (floating point), `_go_to_today` (the clock), and the header click and focus handlers, which only change styling. `_on_tree_key_navigate` maps a key to a direction, which is a parameter here.
- `client.py` (HTTP and HTML scraping), `main` and the CSV and JSON writers of `cli.py`, `__main__.py` and `__init__.py`.
- Python dict order is the order of a sequence that the caller supplies (`IsOrdering`). The round trip holds for every order.
- Text.LowerChar: maps the capitals of Basic Latin, Latin-1, Latin Extended-A and basic Cyrillic only; the limits are those listed for `Messages.FilterOrders`.
- Messages.FilterOrders: lower-cases the Basic Latin, Latin-1, Latin Extended-A and basic Cyrillic capitals, as `str.lower()` does. Other alphabets (Greek, with its word-final sigma, Armenian, and the rest of Unicode) are left as they are, and so is U+0130, whose lower case is two characters long. An order whose only match needs one of those mappings is hidden by the model but shown by the source.
- Messages.ApplyOrderFilter: inherits the lower-casing of `Messages.FilterOrders`.
- Messages.FilterKeepsMatches: inherits the lower-casing of `Messages.FilterOrders`.
- App.CalendarApp.ApplyOrderFilter: inherits the lower-casing of `Messages.FilterOrders`.
- App.CalendarApp.PopulateOrders: inherits the lower-casing of `Messages.FilterOrders`.
- Text.ParseIntSpec: inherits the ASCII-only digits of `Text.ParseInt`.
- Text.ParseInt: reads ASCII digits only. Python's `int()` also accepts every other Unicode decimal digit, so a date key written with Arabic-Indic digits, for example, is loaded by the source and dropped by the model.
- StateCodec.PyRepr: escapes the characters up to U+00FF that Python does not print (the controls, DEL, U+00A0 and U+00AD). Characters above U+00FF that Python does not print, which it writes as `\uXXXX` or `\UXXXXXXXX`, are kept as they are. An object nested inside a day entry is printed with its members as written; `json.load` would have kept one member per name, at its first place with its last value.
- StateCodec.ReprChar: inherits the U+00FF bound of `StateCodec.PyRepr`; a character above U+00FF is always printed as it is.
- StateCodec.PlainReprChars: inherits the U+00FF bound of `StateCodec.PyRepr`.
- JSON numbers are integers only. `Json` has no floats, and `StateCodec.PyRepr` prints only these values.
- Date keys in history actions are integer triples, and the state's date keys are integer triples. Non-integer components, and the fallback branch of `_serialize_date_key` for them, cannot arise.
- When a list box is refilled, Tk clamps the active row and the selection anchor. The model keeps them as they were and clears only the selection.
- History.RedoAfterUndo: holds only when the redo stack has room for the inverse action. With a full stack the oldest redo entry is trimmed, and the round trip loses it. The same goes for `History.UndoAfterRedo`, `History.UndoneRedone` and `History.RedoneUndone` with the undo stack.
- Store.SaveDayNote: models a shown day. For a day without a note editor the source returns early; `App.CalendarApp.SaveDayNotes` models that case as no change.
