/** The operations that change one day of the store: saving a day's note, deleting the selected
    orders of a day, removing one order from the day dialog, clearing a day and assigning one
    order. Each records an undo snapshot of the days it is about to change, so undo puts them
    back. */
module Store {
  import opened Core
  import opened Text
  import opened History
  import opened Messages

  // ----- lists with some positions taken out -----

  /** The entries of `list` at positions not in `positions`, in their order. */
  function Keep(list: seq<Assignment>, positions: set<int>): (r: seq<Assignment>)
    ensures |r| <= |list|
  {
    if list == [] then []
    else Keep(list[..|list| - 1], positions) + (if |list| - 1 in positions then [] else [list[|list| - 1]])
  }

  /** The entries of `list` at positions in `positions`, in their order. */
  function Pick(list: seq<Assignment>, positions: set<int>): (r: seq<Assignment>)
    ensures |r| <= |list|
  {
    if list == [] then []
    else Pick(list[..|list| - 1], positions) + (if |list| - 1 in positions then [list[|list| - 1]] else [])
  }

  /** Every entry goes to exactly one of the two sides. */
  lemma {:induction false} KeepPickSplit(list: seq<Assignment>, positions: set<int>)
    ensures multiset(Keep(list, positions)) + multiset(Pick(list, positions)) == multiset(list)
  {
    if list != [] {
      var init := list[..|list| - 1];
      var last := list[|list| - 1];
      KeepPickSplit(init, positions);
      assert list == init + [last];
      assert multiset(list) == multiset(init) + multiset{last};
      if |list| - 1 in positions {
        assert Keep(list, positions) == Keep(init, positions);
        assert Pick(list, positions) == Pick(init, positions) + [last];
        assert multiset(Pick(list, positions)) == multiset(Pick(init, positions)) + multiset{last};
      } else {
        assert Keep(list, positions) == Keep(init, positions) + [last];
        assert Pick(list, positions) == Pick(init, positions);
        assert multiset(Keep(list, positions)) == multiset(Keep(init, positions)) + multiset{last};
      }
    }
  }

  /** Both sides only look at positions inside the list. */
  lemma {:induction false} KeepAgree(list: seq<Assignment>, s: set<int>, t: set<int>)
    requires forall x :: 0 <= x < |list| ==> (x in s <==> x in t)
    ensures Keep(list, s) == Keep(list, t) && Pick(list, s) == Pick(list, t)
  {
    if list != [] {
      KeepAgree(list[..|list| - 1], s, t);
    }
  }

  lemma {:induction false} KeepNone(list: seq<Assignment>, positions: set<int>)
    requires forall x :: x in positions ==> x < 0 || x >= |list|
    ensures Keep(list, positions) == list && Pick(list, positions) == []
  {
    if list != [] {
      KeepNone(list[..|list| - 1], positions);
      assert list == list[..|list| - 1] + [list[|list| - 1]];
    }
  }

  /** Taking out one more position below all the others pops that entry off the kept list and
      puts it in front of the picked ones. */
  lemma {:induction false} KeepPop(list: seq<Assignment>, positions: set<int>, j: int)
    requires 0 <= j < |list|
    requires forall x :: x in positions ==> x > j
    ensures |Keep(list, positions)| > j && Keep(list, positions)[j] == list[j]
    ensures Keep(list, positions + {j}) == Keep(list, positions)[..j] + Keep(list, positions)[j + 1..]
    ensures Pick(list, positions + {j}) == [list[j]] + Pick(list, positions)
  {
    if j == |list| - 1 {
      KeepPopLast(list, positions);
    } else {
      KeepPop(list[..|list| - 1], positions, j);
      KeepPopStep(list, positions, j);
    }
  }

  /** `KeepPop` for the last position of the list. */
  lemma KeepPopLast(list: seq<Assignment>, positions: set<int>)
    requires list != []
    requires forall x :: x in positions ==> x > |list| - 1
    ensures Keep(list, positions) == list
    ensures Keep(list, positions + {|list| - 1}) == list[..|list| - 1]
    ensures Pick(list, positions + {|list| - 1}) == [list[|list| - 1]] + Pick(list, positions)
  {
    var n := |list|;
    var init := list[..n - 1];
    var more := positions + {n - 1};
    KeepNone(init, positions);
    KeepNone(init, more);
    KeepLastOut(list, positions);
    KeepLastIn(list, more);
    Snoc(list);
  }

  /** One unfolding of `Keep` and `Pick` when the last position is not taken out. */
  lemma KeepLastOut(list: seq<Assignment>, positions: set<int>)
    requires list != [] && |list| - 1 !in positions
    ensures Keep(list, positions) == Keep(list[..|list| - 1], positions) + [list[|list| - 1]]
    ensures Pick(list, positions) == Pick(list[..|list| - 1], positions)
  {
  }

  /** One unfolding of `Keep` and `Pick` when the last position is taken out. */
  lemma KeepLastIn(list: seq<Assignment>, positions: set<int>)
    requires list != [] && |list| - 1 in positions
    ensures Keep(list, positions) == Keep(list[..|list| - 1], positions)
    ensures Pick(list, positions) == Pick(list[..|list| - 1], positions) + [list[|list| - 1]]
  {
  }

  lemma Snoc(list: seq<Assignment>)
    requires list != []
    ensures list[..|list| - 1] + [list[|list| - 1]] == list
  {
  }

  /** The step of `KeepPop` from the list without its last entry to the whole list. */
  lemma KeepPopStep(list: seq<Assignment>, positions: set<int>, j: int)
    requires 0 <= j < |list| - 1
    requires forall x :: x in positions ==> x > j
    requires var init := list[..|list| - 1];
             && |Keep(init, positions)| > j && Keep(init, positions)[j] == list[j]
             && Keep(init, positions + {j}) == Keep(init, positions)[..j] + Keep(init, positions)[j + 1..]
             && Pick(init, positions + {j}) == [list[j]] + Pick(init, positions)
    ensures |Keep(list, positions)| > j && Keep(list, positions)[j] == list[j]
    ensures Keep(list, positions + {j}) == Keep(list, positions)[..j] + Keep(list, positions)[j + 1..]
    ensures Pick(list, positions + {j}) == [list[j]] + Pick(list, positions)
  {
    var n := |list|;
    var k := Keep(list[..n - 1], positions);
    var tail := if n - 1 in positions then [] else [list[n - 1]];
    assert Keep(list, positions) == k + tail;
    assert (k + tail)[..j] == k[..j];
    assert (k + tail)[j + 1..] == k[j + 1..] + tail;
  }

  /** The positions of `positions` inside `[0, n)`, ascending: `sorted(i for i in s if 0 <= i < n)`. */
  function SortedIndices(positions: set<int>, n: nat): (r: seq<int>)
    ensures forall i :: 0 <= i < |r| ==> 0 <= r[i] < n && r[i] in positions
    ensures forall i, j :: 0 <= i < j < |r| ==> r[i] < r[j]
    ensures forall x :: 0 <= x < n && x in positions ==> x in r
  {
    if n == 0 then [] else SortedIndices(positions, n - 1) + (if n - 1 in positions then [n - 1] else [])
  }

  function Elems(s: seq<int>): set<int> {
    set x | x in s
  }

  /** The loop that pops the chosen positions from the highest down, so earlier positions stay
      put, and collects the popped entries in list order. (The source appends them and reverses
      the result at the end; prepending gives the same list.) */
  method PopIndices(list: seq<Assignment>, valid: seq<int>) returns (remaining: seq<Assignment>, removed: seq<Assignment>)
    requires forall i :: 0 <= i < |valid| ==> 0 <= valid[i] < |list|
    requires forall i, j :: 0 <= i < j < |valid| ==> valid[i] < valid[j]
    ensures remaining == Keep(list, Elems(valid)) && removed == Pick(list, Elems(valid))
  {
    remaining := list;
    removed := [];
    var i := |valid|;
    KeepNone(list, Elems(valid[i..]));
    while i > 0
      invariant 0 <= i <= |valid|
      invariant remaining == Keep(list, Elems(valid[i..])) && removed == Pick(list, Elems(valid[i..]))
    {
      i := i - 1;
      var index := valid[i];
      assert Elems(valid[i..]) == Elems(valid[i + 1..]) + {index} by {
        assert valid[i..] == [index] + valid[i + 1..];
      }
      KeepPop(list, Elems(valid[i + 1..]), index);
      var popped := remaining[index];
      remaining := remaining[..index] + remaining[index + 1..];
      removed := [popped] + removed;
    }
    assert valid[0..] == valid;
  }

  // ----- shared steps -----

  /** Setting a day's list, where an emptied day loses its key. */
  function SetDay(m: Assignments, k: DateKey, list: seq<Assignment>): (r: Assignments)
    ensures NoEmptyDays(m) ==> NoEmptyDays(r)
    ensures r - {k} == m - {k}
    ensures DayOrders(r, k) == list
    ensures k in r <==> list != []
  {
    if list != [] then m[k := list] else m - {k}
  }

  /** The undo snapshot of the days `keys` pushed before a change (clearing the redo stack). */
  function Record(h: History, keys: seq<DateKey>): History {
    PushUndo(h, ToRaw(AssignmentsAction(CaptureAll(keys, h.state.assignments))), true)
  }

  /** A history whose assignments are replaced. */
  function WithAssignments(h: History, m: Assignments): History {
    h.(state := h.state.(assignments := m))
  }

  lemma RecordedIsGood(keys: seq<DateKey>, m: Assignments)
    requires NoEmptyDays(m) && |keys| > 0
    requires forall i, j :: 0 <= i < j < |keys| ==> keys[i] != keys[j]
    ensures Good(AssignmentsAction(CaptureAll(keys, m)))
  {
    CaptureCanonical(keys, m);
  }

  /** Recording a snapshot and then changing only the recorded days keeps the invariant, and
      undo then gives back the state from before the change. */
  lemma {:induction false} RecordThenChange(h: History, keys: seq<DateKey>, m: Assignments, dateLabel: DateKey -> string)
    requires Valid(h) && |keys| > 0
    requires forall i, j :: 0 <= i < j < |keys| ==> keys[i] != keys[j]
    requires NoEmptyDays(m)
    requires forall k :: k !in keys ==> (k in m <==> k in h.state.assignments) && (k in m ==> m[k] == h.state.assignments[k])
    ensures Valid(WithAssignments(Record(h, keys), m))
    ensures Undo(WithAssignments(Record(h, keys), m), dateLabel).history.state == h.state
  {
    var a := AssignmentsAction(CaptureAll(keys, h.state.assignments));
    RecordedIsGood(keys, h.state.assignments);
    PushUndoKeepsValid(h, a, true);
    RecordedUndo(h, keys, m, dateLabel);
  }

  lemma RecordedUndo(h: History, keys: seq<DateKey>, m: Assignments, dateLabel: DateKey -> string)
    requires NoEmptyDays(h.state.assignments) && |keys| > 0
    requires forall i, j :: 0 <= i < j < |keys| ==> keys[i] != keys[j]
    requires forall k :: k !in keys ==> (k in m <==> k in h.state.assignments) && (k in m ==> m[k] == h.state.assignments[k])
    ensures Undo(WithAssignments(Record(h, keys), m), dateLabel).history.state == h.state
  {
    var a := AssignmentsAction(CaptureAll(keys, h.state.assignments));
    RecordedIsGood(keys, h.state.assignments);
    NormalizeToRaw(a);
    var h2 := WithAssignments(Record(h, keys), m);
    assert h2.undo[|h2.undo| - 1] == a;
    UndoRevertsRecorded(h.state.assignments, h2, keys, dateLabel);
  }

  // ----- saving a note -----

  /** The note store after a text is saved: a blank text removes the note, any other text is
      stored as typed (unstripped). */
  function StoredNotes(n: Notes, k: DateKey, text: string): Notes {
    if IsBlank(text) then n - {k} else n[k := text]
  }

  /** `_save_day_notes` for a shown day: nothing happens when the text is unchanged, or blank
      with no note stored; otherwise a notes snapshot is pushed and the note stored. */
  function SaveDayNote(h: History, k: DateKey, text: string): (r: History)
    ensures r.state.assignments == h.state.assignments
    ensures r.state.notes == StoredNotes(h.state.notes, k, text)
  {
    var n := h.state.notes;
    if !IsBlank(text) && k in n && n[k] == text then h
    else if IsBlank(text) && k !in n then h
    else
      var h1 := PushUndo(h, ToRaw(NotesAction(k, CaptureNote(n, k))), true);
      h1.(state := h1.state.(notes := StoredNotes(n, k, text)))
  }

  /** A snapshot is pushed exactly when the save changes the note store. */
  lemma SaveDayNotePushesIffChanged(h: History, k: DateKey, text: string)
    requires Valid(h)
    ensures SaveDayNote(h, k, text) == h <==> StoredNotes(h.state.notes, k, text) == h.state.notes
  {
    var n := h.state.notes;
    if !IsBlank(text) && k in n && n[k] == text {
      assert n[k := text] == n;
    } else if IsBlank(text) && k !in n {
      assert n - {k} == n;
    } else {
      if IsBlank(text) {
        assert k !in StoredNotes(n, k, text);
      } else {
        assert StoredNotes(n, k, text)[k] == text;
      }
      var a := NotesAction(k, CaptureNote(n, k));
      NormalizeToRaw(a);
      assert SaveDayNote(h, k, text).state.notes != n;
    }
  }

  /** A note save keeps the invariant. */
  lemma SaveDayNoteValid(h: History, k: DateKey, text: string)
    requires Valid(h)
    ensures Valid(SaveDayNote(h, k, text))
  {
    var n := h.state.notes;
    if StoredNotes(n, k, text) != n {
      var a := NotesAction(k, CaptureNote(n, k));
      SaveDayNoteChanges(h, k, text);
      PushUndoKeepsValid(h, a, true);
    }
  }

  /** Undo after a note save that changed something gives back the previous notes. */
  lemma SaveDayNoteUndo(h: History, k: DateKey, text: string, dateLabel: DateKey -> string)
    requires StoredNotes(h.state.notes, k, text) != h.state.notes
    ensures Undo(SaveDayNote(h, k, text), dateLabel).history.state == h.state
  {
    var n := h.state.notes;
    var a := NotesAction(k, CaptureNote(n, k));
    SaveDayNoteChanges(h, k, text);
    NormalizeToRaw(a);
    var h0 := PushUndo(h, ToRaw(a), true);
    var h1 := h0.(state := h0.state.(notes := StoredNotes(n, k, text)));
    assert h1.undo[|h1.undo| - 1] == a;
    RevertNote(h1.state, k, CaptureNote(n, k));
    RestoreStored(n, k, text);
    assert Undo(h1, dateLabel).history.state == Revert(h1.state, a).0;
  }

  lemma RevertNote(s: CalendarState, k: DateKey, snap: NoteSnapshot)
    ensures Revert(s, NotesAction(k, snap)).0 == s.(notes := RestoreNote(s.notes, k, snap))
  {
  }

  /** The snapshot taken before a note is stored puts the old note back. */
  lemma RestoreStored(n: Notes, k: DateKey, text: string)
    ensures RestoreNote(StoredNotes(n, k, text), k, CaptureNote(n, k)) == n
  {
  }

  /** A save that changes the notes takes the snapshot branch. */
  lemma SaveDayNoteChanges(h: History, k: DateKey, text: string)
    requires StoredNotes(h.state.notes, k, text) != h.state.notes
    ensures var n := h.state.notes;
            var h0 := PushUndo(h, ToRaw(NotesAction(k, CaptureNote(n, k))), true);
            SaveDayNote(h, k, text) == h0.(state := h0.state.(notes := StoredNotes(n, k, text)))
  {
    var n := h.state.notes;
    assert k in n && n[k] == text ==> n[k := text] == n;
    assert k !in n ==> n - {k} == n;
  }

  // ----- saving the notes of every shown day before a redraw -----

  /** The text of a day's note editor: what was typed into it when that is given, otherwise the
      note it was drawn with (an empty or missing note leaves the editor empty). */
  function EditorText(texts: map<DateKey, string>, n: Notes, k: DateKey): (r: string)
    ensures k !in texts && k !in n ==> r == ""
  {
    if k in texts then texts[k] else if k in n then n[k] else ""
  }

  /** The loop of `_render_calendar` that runs `_save_day_notes` on every day cell, in the order
      `days` of the cell map, before the cells are destroyed; `shown` are the days that have a
      cell. The flag tells whether some save changed the notes and so scheduled a state save.
      Notes of other days and the assignments are left alone. */
  function SaveShownNotes(h: History, days: seq<DateKey>, shown: set<DateKey>, texts: map<DateKey, string>): (r: (History, bool))
    ensures r.0.state.assignments == h.state.assignments
    ensures forall k :: k in h.state.notes && (k !in shown || k !in days) ==>
              k in r.0.state.notes && r.0.state.notes[k] == h.state.notes[k]
    ensures forall k :: k !in h.state.notes && (k !in shown || k !in days) ==> k !in r.0.state.notes
    decreases |days|
  {
    if days == [] then (h, false)
    else
      var k := days[0];
      var text := EditorText(texts, h.state.notes, k);
      var step := if k in shown then SaveDayNote(h, k, text) else h;
      var changed := k in shown && StoredNotes(h.state.notes, k, text) != h.state.notes;
      var rest := SaveShownNotes(step, days[1..], shown, texts);
      assert forall j :: j in days[1..] ==> j in days;
      (rest.0, changed || rest.1)
  }

  /** Saving the shown notes keeps the invariant. */
  lemma {:induction false} SaveShownNotesValid(h: History, days: seq<DateKey>, shown: set<DateKey>, texts: map<DateKey, string>)
    requires Valid(h)
    ensures Valid(SaveShownNotes(h, days, shown, texts).0)
    decreases |days|
  {
    if days != [] {
      var k := days[0];
      var text := EditorText(texts, h.state.notes, k);
      if k in shown {
        SaveDayNoteValid(h, k, text);
        SaveShownNotesValid(SaveDayNote(h, k, text), days[1..], shown, texts);
      } else {
        SaveShownNotesValid(h, days[1..], shown, texts);
      }
    }
  }

  /** Over distinct days, each shown day ends with the note its editor holds, or with no note
      when the editor is blank, so an empty or blank stored note that was never edited is
      dropped; a state save is scheduled exactly when the notes changed. */
  lemma SaveShownNotesEffect(h: History, days: seq<DateKey>, shown: set<DateKey>, texts: map<DateKey, string>, k: DateKey)
    requires forall i, j :: 0 <= i < j < |days| ==> days[i] != days[j]
    ensures var r := SaveShownNotes(h, days, shown, texts);
            var text := EditorText(texts, h.state.notes, k);
            && (k in shown && k in days ==> (k in r.0.state.notes <==> !IsBlank(text))
                                            && (k in r.0.state.notes ==> r.0.state.notes[k] == text))
            && (r.1 <==> r.0.state.notes != h.state.notes)
  {
    SaveShownNotesNote(h, days, shown, texts, k);
    SaveShownNotesFlag(h, days, shown, texts);
  }

  /** The days after the first of a list of distinct days are distinct and do not hold it. */
  lemma DistinctTail(days: seq<DateKey>)
    requires days != []
    requires forall i, j :: 0 <= i < j < |days| ==> days[i] != days[j]
    ensures forall a, b :: 0 <= a < b < |days[1..]| ==> days[1..][a] != days[1..][b]
    ensures days[0] !in days[1..]
  {
    var rest := days[1..];
    forall a, b | 0 <= a < b < |rest| ensures rest[a] != rest[b] {
      assert rest[a] == days[a + 1] && rest[b] == days[b + 1];
    }
    forall i | 0 <= i < |rest| ensures rest[i] != days[0] {
      assert rest[i] == days[i + 1];
    }
  }

  /** One step of the loop changes the notes of its own day only. */
  lemma SaveStepNotes(h: History, j: DateKey, shown: set<DateKey>, texts: map<DateKey, string>)
    ensures var text := EditorText(texts, h.state.notes, j);
            var step := if j in shown then SaveDayNote(h, j, text) else h;
            && step.state.notes == (if j in shown then StoredNotes(h.state.notes, j, text) else h.state.notes)
            && forall k :: k != j ==> (k in step.state.notes <==> k in h.state.notes)
                                      && (k in h.state.notes ==> step.state.notes[k] == h.state.notes[k])
  {
  }

  lemma {:induction false} SaveShownNotesNote(h: History, days: seq<DateKey>, shown: set<DateKey>, texts: map<DateKey, string>, k: DateKey)
    requires forall i, j :: 0 <= i < j < |days| ==> days[i] != days[j]
    ensures var r := SaveShownNotes(h, days, shown, texts);
            var text := EditorText(texts, h.state.notes, k);
            k in shown && k in days ==> (k in r.0.state.notes <==> !IsBlank(text))
                                        && (k in r.0.state.notes ==> r.0.state.notes[k] == text)
    decreases |days|
  {
    if days != [] && k in shown && k in days {
      var j := days[0];
      var text := EditorText(texts, h.state.notes, j);
      var step := if j in shown then SaveDayNote(h, j, text) else h;
      var rest := days[1..];
      assert SaveShownNotes(h, days, shown, texts).0 == SaveShownNotes(step, rest, shown, texts).0;
      DistinctTail(days);
      SaveStepNotes(h, j, shown, texts);
      if k != j {
        assert k in rest by { assert days == [j] + rest; }
        SaveShownNotesNote(step, rest, shown, texts, k);
        assert EditorText(texts, step.state.notes, k) == EditorText(texts, h.state.notes, k);
      }
    }
  }

  lemma {:induction false} SaveShownNotesFlag(h: History, days: seq<DateKey>, shown: set<DateKey>, texts: map<DateKey, string>)
    requires forall i, j :: 0 <= i < j < |days| ==> days[i] != days[j]
    ensures var r := SaveShownNotes(h, days, shown, texts);
            r.1 <==> r.0.state.notes != h.state.notes
    decreases |days|
  {
    if days != [] {
      var j := days[0];
      var text := EditorText(texts, h.state.notes, j);
      var step := if j in shown then SaveDayNote(h, j, text) else h;
      var rest := days[1..];
      var r := SaveShownNotes(step, rest, shown, texts);
      assert SaveShownNotes(h, days, shown, texts) == (r.0, (j in shown && StoredNotes(h.state.notes, j, text) != h.state.notes) || r.1);
      DistinctTail(days);
      SaveStepNotes(h, j, shown, texts);
      SaveShownNotesFlag(step, rest, shown, texts);
      if j in shown && StoredNotes(h.state.notes, j, text) != h.state.notes {
        NoteDiffers(h.state.notes, step.state.notes, r.0.state.notes, j);
      }
    }
  }

  /** A day whose note changed and then stays as it is keeps the whole store changed. */
  lemma NoteDiffers(n0: Notes, n1: Notes, n2: Notes, j: DateKey)
    requires n1 != n0
    requires forall k :: k != j ==> (k in n0 <==> k in n1) && (k in n0 ==> n0[k] == n1[k])
    requires (j in n1 <==> j in n2) && (j in n1 ==> n1[j] == n2[j])
    ensures n2 != n0
  {
  }

  // ----- deleting the selected orders of a day -----

  /** `_on_day_order_delete` for a shown day, with the list box's selection. */
  function DeleteSelected(h: History, k: DateKey, selection: set<int>, dateLabel: DateKey -> string): (o: Outcome)
  {
    var list := DayOrders(h.state.assignments, k);
    if list == [] then Outcome(h, false, "No orders scheduled for this day.", [], false)
    else if selection == {} then Outcome(h, false, "Please select at least one order to remove.", [], false)
    else if SortedIndices(selection, |list|) == [] then Outcome(h, false, "Unable to determine which orders to remove.", [], false)
    else
      var h1 := Record(h, [k]);
      Outcome(WithAssignments(h1, SetDay(h.state.assignments, k, Keep(list, selection))), true,
              FormatBulkRemovalMessage(Pick(list, selection), dateLabel(k)), [k], true)
  }

  /** A delete fails, touching nothing, exactly when no selected position is inside the day's
      list. */
  lemma DeleteSelectedFails(h: History, k: DateKey, selection: set<int>, dateLabel: DateKey -> string)
    ensures var list := DayOrders(h.state.assignments, k);
            var o := DeleteSelected(h, k, selection, dateLabel);
            && (o.ok <==> exists i :: 0 <= i < |list| && i in selection)
            && (!o.ok ==> o.history == h)
  {
    var list := DayOrders(h.state.assignments, k);
    var valid := SortedIndices(selection, |list|);
    var o := DeleteSelected(h, k, selection, dateLabel);
    if valid != [] {
      assert 0 <= valid[0] < |list| && valid[0] in selection;
      assert o.ok;
    } else {
      assert !o.ok && o.history == h;
    }
  }

  /** A delete that goes through keeps exactly the unselected orders of the day, in order,
      reports the selected ones, changes no other day, keeps the invariant and can be undone. */
  lemma DeleteSelectedEffect(h: History, k: DateKey, selection: set<int>, dateLabel: DateKey -> string)
    requires Valid(h)
    requires exists i :: 0 <= i < |DayOrders(h.state.assignments, k)| && i in selection
    ensures var list := DayOrders(h.state.assignments, k);
            var o := DeleteSelected(h, k, selection, dateLabel);
            && DayOrders(o.history.state.assignments, k) == Keep(list, selection)
            && o.history.state.assignments - {k} == h.state.assignments - {k}
            && multiset(Keep(list, selection)) + multiset(Pick(list, selection)) == multiset(list)
            && o.message == FormatBulkRemovalMessage(Pick(list, selection), dateLabel(k))
            && Valid(o.history)
            && Undo(o.history, dateLabel).history.state == h.state
  {
    var m := h.state.assignments;
    var list := DayOrders(m, k);
    var i :| 0 <= i < |list| && i in selection;
    assert i in SortedIndices(selection, |list|);
    var after := SetDay(m, k, Keep(list, selection));
    assert DeleteSelected(h, k, selection, dateLabel).history == WithAssignments(Record(h, [k]), after);
    KeepPickSplit(list, selection);
    RecordThenChange(h, [k], after, dateLabel);
  }

  // ----- the day dialog -----

  /** `remove_selected` of the day dialog: the first selected row is removed. Besides the
      outcome it gives the row the dialog selects afterwards, if any. */
  function RemoveSelected(h: History, k: DateKey, selection: seq<int>, dateLabel: DateKey -> string): (r: (Outcome, Option<int>))
    ensures r.0.ok ==> (r.1.Some? <==> |DayOrders(h.state.assignments, k)| > 1)
  {
    var list := DayOrders(h.state.assignments, k);
    if selection == [] then (Outcome(h, false, "Please select an order to remove.", [], false), None)
    else if list == [] then (Outcome(h, false, "No orders scheduled for this day.", [], false), None)
    else
      var index := selection[0];
      if index < 0 || index >= |list| then (Outcome(h, false, "Unable to determine which order to remove.", [], false), None)
      else
        var rest := list[..index] + list[index + 1..];
        var h1 := Record(h, [k]);
        (Outcome(WithAssignments(h1, SetDay(h.state.assignments, k, rest)), true,
                 FormatRemovalMessage(list[index], dateLabel(k)), [k], true),
         if rest != [] then Some(if index < |rest| - 1 then index else |rest| - 1) else None)
  }

  /** A dialog removal takes out exactly the first selected row, keeps the dialog's selection
      on a row that exists, and can be undone. */
  lemma RemoveSelectedEffect(h: History, k: DateKey, selection: seq<int>, dateLabel: DateKey -> string)
    requires Valid(h)
    ensures var list := DayOrders(h.state.assignments, k);
            var r := RemoveSelected(h, k, selection, dateLabel);
            && (r.0.ok <==> selection != [] && 0 <= selection[0] < |list|)
            && (!r.0.ok ==> r.0.history == h)
            && (r.0.ok ==> && DayOrders(r.0.history.state.assignments, k) == Keep(list, {selection[0]})
                           && r.0.history.state.assignments - {k} == h.state.assignments - {k}
                           && (r.1.Some? ==> 0 <= r.1.value < |list| - 1)
                           && Valid(r.0.history)
                           && Undo(r.0.history, dateLabel).history.state == h.state)
  {
    var list := DayOrders(h.state.assignments, k);
    if selection != [] && 0 <= selection[0] < |list| {
      var index := selection[0];
      var rest := list[..index] + list[index + 1..];
      KeepOne(list, index);
      var after := SetDay(h.state.assignments, k, rest);
      RecordThenChange(h, [k], after, dateLabel);
      var r := RemoveSelected(h, k, selection, dateLabel);
      assert r.0.history == WithAssignments(Record(h, [k]), after);
    }
  }

  lemma KeepOne(list: seq<Assignment>, index: int)
    requires 0 <= index < |list|
    ensures Keep(list, {index}) == list[..index] + list[index + 1..]
  {
    KeepNone(list, {});
    KeepPop(list, {}, index);
    assert {} + {index} == {index};
  }

  /** `clear_day` of the day dialog and `_on_day_clear_request`: the whole day goes. */
  function ClearDay(h: History, k: DateKey, dateLabel: DateKey -> string): (o: Outcome)
  {
    var list := DayOrders(h.state.assignments, k);
    if list == [] then Outcome(h, false, "No orders scheduled for this day.", [], false)
    else Outcome(WithAssignments(Record(h, [k]), h.state.assignments - {k}), true,
                 FormatClearedMessage(|list|, dateLabel(k)), [k], true)
  }

  lemma ClearDayEffect(h: History, k: DateKey, dateLabel: DateKey -> string)
    requires Valid(h)
    ensures var o := ClearDay(h, k, dateLabel);
            && (o.ok <==> k in h.state.assignments)
            && (!o.ok ==> o.history == h)
            && (o.ok ==> && o.history.state.assignments == h.state.assignments - {k}
                         && o.message == FormatClearedMessage(|h.state.assignments[k]|, dateLabel(k))
                         && Valid(o.history)
                         && Undo(o.history, dateLabel).history.state == h.state)
  {
    if k in h.state.assignments {
      RecordThenChange(h, [k], h.state.assignments - {k}, dateLabel);
    }
  }

  // ----- assigning one order -----

  /** `_assign_order_to_day`: an order already on the day is not added again (false);
      otherwise it is appended, after an undo snapshot when `pushUndo`, and the result is
      true. */
  function AssignOrder(h: History, k: DateKey, values: seq<string>, pushUndo: bool): (r: (History, bool))
  {
    var a := NormalizeAssignment(values);
    var list := DayOrders(h.state.assignments, k);
    if a in list then (h, false)
    else
      var h1 := if pushUndo then Record(h, [k]) else h;
      (WithAssignments(h1, h.state.assignments[k := list + [a]]), true)
  }

  /** Assigning puts the order at the end of the day's list unless it is already there, and
      reports true exactly when the order was new; nothing else changes. */
  lemma AssignOrderEffect(h: History, k: DateKey, values: seq<string>, pushUndo: bool)
    ensures var a := NormalizeAssignment(values);
            var list := DayOrders(h.state.assignments, k);
            var r := AssignOrder(h, k, values, pushUndo);
            && (r.1 <==> a !in list)
            && a in DayOrders(r.0.state.assignments, k)
            && (!r.1 ==> r.0 == h)
            && r.0.state.assignments - {k} == h.state.assignments - {k}
            && (r.1 ==> DayOrders(r.0.state.assignments, k) == list + [a])
  {
    var a := NormalizeAssignment(values);
    var m := h.state.assignments;
    var list := DayOrders(m, k);
    if a !in list {
      var after := m[k := list + [a]];
      assert after - {k} == m - {k};
    }
  }

  /** An assignment keeps the invariant, with or without a snapshot; with one, it can be
      undone. */
  lemma AssignOrderUndoable(h: History, k: DateKey, values: seq<string>, pushUndo: bool, dateLabel: DateKey -> string)
    requires Valid(h)
    ensures Valid(AssignOrder(h, k, values, pushUndo).0)
    ensures pushUndo && AssignOrder(h, k, values, pushUndo).1 ==>
              Undo(AssignOrder(h, k, values, pushUndo).0, dateLabel).history.state == h.state
  {
    if NormalizeAssignment(values) !in DayOrders(h.state.assignments, k) {
      if pushUndo {
        AssignNewOrderUndoable(h, k, values, dateLabel);
      }
    }
  }

  lemma AssignNewOrderUndoable(h: History, k: DateKey, values: seq<string>, dateLabel: DateKey -> string)
    requires Valid(h) && NormalizeAssignment(values) !in DayOrders(h.state.assignments, k)
    ensures Valid(AssignOrder(h, k, values, true).0)
    ensures Undo(AssignOrder(h, k, values, true).0, dateLabel).history.state == h.state
  {
    var list := DayOrders(h.state.assignments, k);
    var after := h.state.assignments[k := list + [NormalizeAssignment(values)]];
    assert after - {k} == h.state.assignments - {k};
    RecordThenChange(h, [k], after, dateLabel);
    assert AssignOrder(h, k, values, true).0 == WithAssignments(Record(h, [k]), after);
  }

  /** Assigning never puts a second copy of an order on a day. */
  lemma AssignOrderNoDuplicates(h: History, k: DateKey, values: seq<string>, pushUndo: bool)
    requires var list := DayOrders(h.state.assignments, k);
             forall i, j :: 0 <= i < j < |list| ==> list[i] != list[j]
    ensures var list := DayOrders(AssignOrder(h, k, values, pushUndo).0.state.assignments, k);
            forall i, j :: 0 <= i < j < |list| ==> list[i] != list[j]
  {
  }
}
