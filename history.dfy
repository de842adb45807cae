/** The history manager: snapshot actions, their normalisation, the two bounded stacks and the
    undo / redo steps, as pure functions on a `History` record. The class in `app.dfy` carries
    the same state in fields and is proved to follow these functions. */
module History {
  import opened Core
  import opened Text
  import opened StateCodec

  /** `_undo_stack_limit`, and `_redo_stack_limit` which is set to the same value. */
  const UndoLimit := 100
  const RedoLimit := UndoLimit

  /** What one day held before a change: whether the day had a key and, if so, its list. */
  datatype DaySnapshot = DaySnapshot(hadKey: bool, previous: Option<seq<Assignment>>)

  /** What one day's note was before a change. */
  datatype NoteSnapshot = NoteSnapshot(hadKey: bool, previous: Option<string>)

  /** The `dates` dict of an assignments action, in insertion order. */
  type DayEntries = seq<(DateKey, DaySnapshot)>

  /** A normalised history action, as the two stacks hold them. */
  datatype Action =
    | NotesAction(dateKey: DateKey, note: NoteSnapshot)
    | AssignmentsAction(dates: DayEntries)

  predicate DistinctKeys(entries: DayEntries) {
    forall i, j :: 0 <= i < j < |entries| ==> entries[i].0 != entries[j].0
  }

  function KeysOf(entries: DayEntries): (ks: seq<DateKey>)
    ensures |ks| == |entries|
    ensures forall i :: 0 <= i < |entries| ==> ks[i] == entries[i].0
  {
    seq(|entries|, i requires 0 <= i < |entries| => entries[i].0)
  }

  predicate HasKey(entries: DayEntries, k: DateKey) {
    exists i :: 0 <= i < |entries| && entries[i].0 == k
  }

  /** Where `k` sits in the dict, or -1. */
  function FindKey(entries: DayEntries, k: DateKey): (i: int)
    ensures -1 <= i < |entries|
    ensures i >= 0 ==> entries[i].0 == k
    ensures i < 0 ==> !HasKey(entries, k)
  {
    if entries == [] then -1
    else if entries[|entries| - 1].0 == k then |entries| - 1
    else
      var i := FindKey(entries[..|entries| - 1], k);
      assert i < 0 ==> forall j :: 0 <= j < |entries| - 1 ==> entries[j].0 == entries[..|entries| - 1][j].0 != k;
      i
  }

  /** `d[k] = v` on a dict kept in insertion order: an existing key keeps its place and takes
      the new value; a new key goes at the end. */
  function Put(entries: DayEntries, k: DateKey, v: DaySnapshot): (r: DayEntries)
    ensures !HasKey(entries, k) ==> r == entries + [(k, v)]
    ensures HasKey(entries, k) ==> KeysOf(r) == KeysOf(entries) && (k, v) in r
    ensures DistinctKeys(entries) ==> DistinctKeys(r)
  {
    var i := FindKey(entries, k);
    if i < 0 then entries + [(k, v)]
    else
      var r := entries[i := (k, v)];
      assert r[i] == (k, v);
      assert KeysOf(r) == KeysOf(entries);
      r
  }

  // ----- capture and restore -----

  /** `_capture_assignments_state`: a day with a key gives its list, a day without gives none. */
  function CaptureDay(m: Assignments, k: DateKey): DaySnapshot {
    if k in m then DaySnapshot(true, Some(m[k])) else DaySnapshot(false, None)
  }

  /** `_capture_notes_state`. */
  function CaptureNote(n: Notes, k: DateKey): NoteSnapshot {
    if k in n then NoteSnapshot(true, Some(n[k])) else NoteSnapshot(false, None)
  }

  /** The list a day snapshot puts back: its list, or nothing when it has none. */
  function RestoredList(snap: DaySnapshot): seq<Assignment> {
    if snap.previous.Some? then snap.previous.value else []
  }

  /** Restoring one day: a non-empty list is put back, otherwise the key is removed. */
  function RestoreDay(m: Assignments, k: DateKey, snap: DaySnapshot): (r: Assignments)
    ensures NoEmptyDays(m) ==> NoEmptyDays(r)
    ensures r - {k} == m - {k}
    ensures k in r <==> RestoredList(snap) != []
    ensures k in r ==> r[k] == RestoredList(snap)
  {
    var list := RestoredList(snap);
    if list != [] then m[k := list] else m - {k}
  }

  /** Restoring one note: a saved string (even an empty one) is put back, otherwise the key is
      removed. */
  function RestoreNote(n: Notes, k: DateKey, snap: NoteSnapshot): (r: Notes)
    ensures r - {k} == n - {k}
    ensures k in r <==> snap.previous.Some?
    ensures k in r ==> r[k] == snap.previous.value
  {
    if snap.previous.Some? then n[k := snap.previous.value] else n - {k}
  }

  /** The snapshots of a list of days taken on one state. */
  function CaptureAll(keys: seq<DateKey>, m: Assignments): (r: DayEntries)
    ensures |r| == |keys|
    ensures forall i :: 0 <= i < |keys| ==> r[i] == (keys[i], CaptureDay(m, keys[i]))
  {
    seq(|keys|, i requires 0 <= i < |keys| => (keys[i], CaptureDay(m, keys[i])))
  }

  /** The loop of `_undo_last_action` / `_redo_last_action` over the days of an assignments
      action: each day is captured from the current state and then restored from its snapshot.
      Returns the new state and the captured `dates` dict. */
  function RevertDays(dates: DayEntries, m: Assignments): (r: (Assignments, DayEntries))
    ensures NoEmptyDays(m) ==> NoEmptyDays(r.0)
  {
    if dates == [] then (m, [])
    else
      var (m1, captured) := RevertDays(dates[..|dates| - 1], m);
      var (k, snap) := dates[|dates| - 1];
      (RestoreDay(m1, k, snap), Put(captured, k, CaptureDay(m1, k)))
  }

  // ----- normalisation of raw actions -----

  /** One day's info in a raw `dates` dict; `RawNonDict` is an info value that is not a dict. */
  datatype RawDayInfo = RawInfo(infoHadKey: bool, infoPrevious: Json) | RawNonDict

  /** An action dict before `_normalize_history_action`. Date keys are integer tuples; a
      `None` key or `dates` stands for a missing or wrongly typed member; `RawOther` is anything
      with another `kind`. */
  datatype RawAction =
    | RawAssignments(rawDates: Option<seq<(seq<int>, RawDayInfo)>>)
    | RawNotes(rawKey: Option<seq<int>>, noteHadKey: bool, notePrevious: Json)
    | RawOther

  /** An entry of a history list: only a list or tuple is kept. */
  function HistoryEntry(entry: Json): (r: Option<Assignment>)
    ensures r.Some? <==> entry.JArr?
  {
    match entry
    case JArr(items) =>
      Some(Assignment(if |items| > 0 then PyStr(items[0]) else "",
                      if |items| > 1 then PyStr(items[1]) else ""))
    case _ => None
  }

  function HistoryEntries(items: seq<Json>): (r: seq<Assignment>)
    ensures |r| <= |items|
  {
    if items == [] then []
    else
      var prefix := HistoryEntries(items[..|items| - 1]);
      match HistoryEntry(items[|items| - 1])
      case Some(a) => prefix + [a]
      case None => prefix
  }

  function NormalizeDayInfo(info: RawDayInfo): (s: DaySnapshot)
    ensures info.RawNonDict? ==> s == DaySnapshot(false, None)
  {
    match info
    case RawNonDict => DaySnapshot(false, None)
    case RawInfo(hadKey, previous) =>
      DaySnapshot(hadKey, if previous.JArr? then Some(HistoryEntries(previous.items)) else None)
  }

  /** The `dates` loop: keys that are not triples are skipped. */
  function NormalizeDates(raw: seq<(seq<int>, RawDayInfo)>): (r: DayEntries)
    ensures DistinctKeys(r)
    ensures |r| <= |raw|
  {
    if raw == [] then []
    else
      var prefix := NormalizeDates(raw[..|raw| - 1]);
      var (rawKey, info) := raw[|raw| - 1];
      match NormalizeDateKey(rawKey)
      case Some(k) => Put(prefix, k, NormalizeDayInfo(info))
      case None => prefix
  }

  /** The `previous` member of a notes action: a string is kept, `None` stays `None`, any
      other value is converted with `str()`. */
  function NormalizeNotePrevious(previous: Json): (r: Option<string>)
    ensures previous.JStr? ==> r == Some(previous.s)
    ensures r.None? <==> previous.JNull?
  {
    match previous
    case JStr(s) => Some(s)
    case JNull => None
    case _ => Some(PyStr(previous))
  }

  /** A normalised assignments action names at least one day, each once. */
  predicate WellFormed(a: Action) {
    a.AssignmentsAction? ==> a.dates != [] && DistinctKeys(a.dates)
  }

  /** `_normalize_history_action`. */
  function NormalizeAction(raw: RawAction): (r: Option<Action>)
    ensures r.Some? ==> WellFormed(r.value)
    ensures raw.RawOther? ==> r.None?
    ensures raw.RawAssignments? && (raw.rawDates.None? || raw.rawDates.value == []) ==> r.None?
    ensures raw.RawNotes? ==> (r.Some? <==> raw.rawKey.Some? && |raw.rawKey.value| == 3)
  {
    match raw
    case RawAssignments(rawDates) =>
      if rawDates.None? || rawDates.value == [] then None
      else
        var dates := NormalizeDates(rawDates.value);
        if dates == [] then None else Some(AssignmentsAction(dates))
    case RawNotes(rawKey, hadKey, previous) =>
      if rawKey.None? then None
      else
        (match NormalizeDateKey(rawKey.value)
         case None => None
         case Some(k) => Some(NotesAction(k, NoteSnapshot(hadKey, NormalizeNotePrevious(previous)))))
    case RawOther => None
  }

  /** The dict a caller builds from a snapshot action before pushing it. */
  function PreviousToJson(p: Option<seq<Assignment>>): Json {
    match p
    case None => JNull
    case Some(list) =>
      JArr(seq(|list|, j requires 0 <= j < |list| => JArr([JStr(list[j].orderNumber), JStr(list[j].company)])))
  }

  function ToRaw(a: Action): RawAction {
    match a
    case NotesAction(k, note) =>
      RawNotes(Some(KeyTuple(k)), note.hadKey, if note.previous.Some? then JStr(note.previous.value) else JNull)
    case AssignmentsAction(dates) =>
      RawAssignments(Some(seq(|dates|, i requires 0 <= i < |dates| =>
        (KeyTuple(dates[i].0), RawInfo(dates[i].1.hadKey, PreviousToJson(dates[i].1.previous))))))
  }

  lemma {:induction false} HistoryEntriesOfPairs(list: seq<Assignment>)
    ensures PreviousToJson(Some(list)).JArr?
    ensures HistoryEntries(PreviousToJson(Some(list)).items) == list
  {
    if list != [] {
      var prefix := list[..|list| - 1];
      var items := PreviousToJson(Some(list)).items;
      assert items[..|items| - 1] == PreviousToJson(Some(prefix)).items;
      HistoryEntriesOfPairs(prefix);
      assert list == prefix + [list[|list| - 1]];
    }
  }

  lemma {:induction false} NormalizeDatesOfRaw(dates: DayEntries)
    requires DistinctKeys(dates)
    ensures NormalizeDates(ToRaw(AssignmentsAction(dates)).rawDates.value) == dates
  {
    var raw := ToRaw(AssignmentsAction(dates)).rawDates.value;
    if dates != [] {
      var prefix := dates[..|dates| - 1];
      var (k, snap) := dates[|dates| - 1];
      assert raw[..|raw| - 1] == ToRaw(AssignmentsAction(prefix)).rawDates.value;
      assert DistinctKeys(prefix);
      NormalizeDatesOfRaw(prefix);
      NormalizeKeyTuple(k);
      if snap.previous.Some? {
        HistoryEntriesOfPairs(snap.previous.value);
      }
      assert NormalizeDayInfo(raw[|raw| - 1].1) == snap;
      assert !HasKey(prefix, k);
      assert dates == prefix + [(k, snap)];
    }
  }

  /** Normalising the dict built from a well-formed action gives the action back, so what a
      caller pushes is what the stack holds. */
  lemma NormalizeToRaw(a: Action)
    requires WellFormed(a)
    ensures NormalizeAction(ToRaw(a)) == Some(a)
  {
    match a
    case NotesAction(k, note) =>
      NormalizeKeyTuple(k);
    case AssignmentsAction(dates) =>
      NormalizeDatesOfRaw(dates);
  }

  // ----- the two stacks -----

  /** `del stack[:len(stack) - limit]` when the stack is over a positive limit. */
  function Trim(stack: seq<Action>, limit: int): (r: seq<Action>)
    ensures limit > 0 ==> |r| <= limit
    ensures |r| <= |stack| && r == stack[|stack| - |r|..]
    ensures limit <= 0 || |stack| <= limit ==> r == stack
    ensures limit > 0 && |stack| > limit ==> |r| == limit
    ensures limit > 0 && |stack| > 0 ==> |r| > 0
  {
    if limit > 0 && |stack| > limit then stack[|stack| - limit..] else stack
  }

  /** The persistent state together with both stacks. */
  datatype History = History(state: CalendarState, undo: seq<Action>, redo: seq<Action>)

  /** `_push_undo_action`. */
  function PushUndo(h: History, raw: RawAction, clearRedo: bool): (r: History)
    ensures r.state == h.state
    ensures NormalizeAction(raw).None? ==> r == h
    ensures NormalizeAction(raw).Some? ==>
      && 0 < |r.undo| <= UndoLimit && |r.undo| <= |h.undo| + 1
      && r.undo[|r.undo| - 1] == NormalizeAction(raw).value
      && r.undo == (h.undo + [NormalizeAction(raw).value])[|h.undo| + 1 - |r.undo|..]
      && (|h.undo| < UndoLimit ==> r.undo == h.undo + [NormalizeAction(raw).value])
      && r.redo == (if clearRedo then [] else h.redo)
  {
    match NormalizeAction(raw)
    case None => h
    case Some(a) => History(h.state, Trim(h.undo + [a], UndoLimit), if clearRedo then [] else h.redo)
  }

  /** `_push_redo_action`: the undo stack is left alone. */
  function PushRedo(h: History, raw: RawAction): (r: History)
    ensures r.state == h.state && r.undo == h.undo
    ensures NormalizeAction(raw).None? ==> r == h
    ensures NormalizeAction(raw).Some? ==>
      && 0 < |r.redo| <= RedoLimit && |r.redo| <= |h.redo| + 1
      && r.redo[|r.redo| - 1] == NormalizeAction(raw).value
      && r.redo == (h.redo + [NormalizeAction(raw).value])[|h.redo| + 1 - |r.redo|..]
      && (|h.redo| < RedoLimit ==> r.redo == h.redo + [NormalizeAction(raw).value])
  {
    match NormalizeAction(raw)
    case None => h
    case Some(a) => History(h.state, h.undo, Trim(h.redo + [a], RedoLimit))
  }

  // ----- undo and redo -----

  /** Applying a popped action to the state, and the action that would take it back. */
  function Revert(s: CalendarState, a: Action): (r: (CalendarState, Action))
    ensures NoEmptyDays(s.assignments) ==> NoEmptyDays(r.0.assignments)
  {
    match a
    case NotesAction(k, snap) =>
      (s.(notes := RestoreNote(s.notes, k, snap)), NotesAction(k, CaptureNote(s.notes, k)))
    case AssignmentsAction(dates) =>
      var (m, captured) := RevertDays(dates, s.assignments);
      (s.(assignments := m), AssignmentsAction(captured))
  }

  /** The days whose calendar cell is redrawn after an action is applied. */
  function Refreshed(a: Action): seq<DateKey> {
    if a.AssignmentsAction? then KeysOf(a.dates) else []
  }

  /** The tail of the status text after "Undo: restored " or "Redo: restored "; `None` when the
      action restored nothing. */
  function RestoredText(a: Action, dateLabel: DateKey -> string): (r: Option<string>)
    ensures r.None? <==> a.AssignmentsAction? && a.dates == []
  {
    match a
    case NotesAction(k, _) => Some("notes for " + dateLabel(k))
    case AssignmentsAction(dates) =>
      if dates == [] then None
      else Some("assignments for " + Join(seq(|dates|, i requires 0 <= i < |dates| => dateLabel(dates[i].0)), ", "))
  }

  /** What one undo or redo leaves behind: the new history, the status colour (true for the
      success colour) and text, the day cells to redraw and whether a save is scheduled. */
  datatype Outcome = Outcome(history: History, ok: bool, message: string, refreshed: seq<DateKey>, saveScheduled: bool)

  /** The history an undo leaves: the newest undo action is applied and its inverse is pushed
      onto the redo stack. */
  function Undone(h: History): History
    requires h.undo != []
  {
    var a := h.undo[|h.undo| - 1];
    var (s, inverse) := Revert(h.state, a);
    PushRedo(History(s, h.undo[..|h.undo| - 1], h.redo), ToRaw(inverse))
  }

  /** The history a redo leaves: the newest redo action is applied and its inverse is pushed
      onto the undo stack, which keeps the redo stack. */
  function Redone(h: History): History
    requires h.redo != []
  {
    var a := h.redo[|h.redo| - 1];
    var (s, inverse) := Revert(h.state, a);
    PushUndo(History(s, h.undo, h.redo[..|h.redo| - 1]), ToRaw(inverse), false)
  }

  /** `_undo_last_action` (the native text-widget branch is outside the model). */
  function Undo(h: History, dateLabel: DateKey -> string): (o: Outcome)
    ensures h.undo == [] ==> o == Outcome(h, false, "Nothing to undo.", [], false)
    ensures h.undo != [] ==> o.history.undo == h.undo[..|h.undo| - 1]
    ensures NoEmptyDays(h.state.assignments) ==> NoEmptyDays(o.history.state.assignments)
  {
    if h.undo == [] then Outcome(h, false, "Nothing to undo.", [], false)
    else
      var a := h.undo[|h.undo| - 1];
      var h1 := Undone(h);
      match RestoredText(a, dateLabel)
      case Some(text) => Outcome(h1, true, "Undo: restored " + text + ".", Refreshed(a), true)
      case None => Outcome(h1, false, "Nothing to undo.", [], false)
  }

  /** `_redo_last_action`: the mirror of `Undo`, pushing onto the undo stack without clearing
      the redo stack. */
  function Redo(h: History, dateLabel: DateKey -> string): (o: Outcome)
    ensures h.redo == [] ==> o == Outcome(h, false, "Nothing to redo.", [], false)
    ensures h.redo != [] ==> o.history.redo == h.redo[..|h.redo| - 1]
    ensures NoEmptyDays(h.state.assignments) ==> NoEmptyDays(o.history.state.assignments)
  {
    if h.redo == [] then Outcome(h, false, "Nothing to redo.", [], false)
    else
      var a := h.redo[|h.redo| - 1];
      var h1 := Redone(h);
      match RestoredText(a, dateLabel)
      case Some(text) => Outcome(h1, true, "Redo: restored " + text + ".", Refreshed(a), true)
      case None => Outcome(h1, false, "Nothing to redo.", [], false)
  }

  // ----- properties -----

  /** Every snapshot taken on a store without empty days: a key goes with a non-empty list and
      no key with no list. */
  predicate CanonicalDay(snap: DaySnapshot) {
    && (snap.hadKey <==> snap.previous.Some?)
    && (snap.previous.Some? ==> snap.previous.value != [])
  }

  predicate Canonical(a: Action) {
    match a
    case NotesAction(_, note) => note.hadKey <==> note.previous.Some?
    case AssignmentsAction(dates) => forall i :: 0 <= i < |dates| ==> CanonicalDay(dates[i].1)
  }

  /** A well-formed canonical action: what every capture produces. */
  predicate Good(a: Action) {
    WellFormed(a) && Canonical(a)
  }

  predicate AllGood(stack: seq<Action>) {
    forall i :: 0 <= i < |stack| ==> Good(stack[i])
  }

  /** The invariant the application keeps: no empty day, bounded stacks of well-formed
      snapshot actions. */
  ghost predicate Valid(h: History) {
    && NoEmptyDays(h.state.assignments)
    && |h.undo| <= UndoLimit && |h.redo| <= RedoLimit
    && AllGood(h.undo) && AllGood(h.redo)
  }

  lemma AllGoodPop(stack: seq<Action>)
    requires AllGood(stack) && stack != []
    ensures AllGood(stack[..|stack| - 1]) && Good(stack[|stack| - 1])
  {
    assert forall i :: 0 <= i < |stack| - 1 ==> stack[..|stack| - 1][i] == stack[i];
  }

  lemma AllGoodPush(stack: seq<Action>, a: Action, limit: int)
    requires AllGood(stack) && Good(a)
    ensures AllGood(Trim(stack + [a], limit))
  {
    var s := stack + [a];
    var r := Trim(s, limit);
    forall i | 0 <= i < |r| ensures Good(r[i]) {
      assert r[i] == s[|s| - |r| + i];
    }
  }

  function KeySet(dates: DayEntries): set<DateKey> {
    set i | 0 <= i < |dates| :: dates[i].0
  }

  /** Reverting the days of an action changes no other day. */
  lemma {:induction false} RevertDaysFrame(dates: DayEntries, m: Assignments, k: DateKey)
    requires !HasKey(dates, k)
    ensures k in RevertDays(dates, m).0 <==> k in m
    ensures k in m ==> RevertDays(dates, m).0[k] == m[k]
  {
    if dates != [] {
      var prefix := dates[..|dates| - 1];
      assert !HasKey(prefix, k);
      RevertDaysFrame(prefix, m, k);
      var m1 := RevertDays(prefix, m).0;
      var last := dates[|dates| - 1];
      assert last.0 != k;
      assert (RestoreDay(m1, last.0, last.1) - {last.0}) == m1 - {last.0};
      assert k in RestoreDay(m1, last.0, last.1) <==> k in m1 - {last.0};
    }
  }

  /** After reverting, each listed day holds what its snapshot restores. */
  lemma {:induction false} RevertDaysAt(dates: DayEntries, m: Assignments, i: int)
    requires DistinctKeys(dates) && 0 <= i < |dates|
    ensures dates[i].0 in RevertDays(dates, m).0 <==> RestoredList(dates[i].1) != []
    ensures dates[i].0 in RevertDays(dates, m).0 ==> RevertDays(dates, m).0[dates[i].0] == RestoredList(dates[i].1)
  {
    var prefix := dates[..|dates| - 1];
    var m1 := RevertDays(prefix, m).0;
    var last := dates[|dates| - 1];
    if i < |dates| - 1 {
      assert DistinctKeys(prefix);
      assert prefix[i] == dates[i];
      RevertDaysAt(prefix, m, i);
      var k := dates[i].0;
      assert k != last.0;
      assert (RestoreDay(m1, last.0, last.1) - {last.0}) == m1 - {last.0};
      assert k in RestoreDay(m1, last.0, last.1) <==> k in m1 - {last.0};
    }
  }

  lemma CaptureAllSnoc(keys: seq<DateKey>, k: DateKey, m: Assignments)
    ensures CaptureAll(keys + [k], m) == CaptureAll(keys, m) + [(k, CaptureDay(m, k))]
  {
  }

  /** The `dates` dict captured while reverting is the snapshot of the listed days taken on the
      state before the undo or redo. */
  lemma {:induction false} RevertDaysCaptured(dates: DayEntries, m: Assignments)
    requires DistinctKeys(dates)
    ensures RevertDays(dates, m).1 == CaptureAll(KeysOf(dates), m)
  {
    if dates != [] {
      var prefix := dates[..|dates| - 1];
      assert DistinctKeys(prefix);
      RevertDaysCaptured(prefix, m);
      RevertDaysCapturedStep(dates, m);
    }
  }

  /** The step of `RevertDaysCaptured` from the entries without the last one to all of them. */
  lemma RevertDaysCapturedStep(dates: DayEntries, m: Assignments)
    requires dates != [] && DistinctKeys(dates)
    requires RevertDays(dates[..|dates| - 1], m).1 == CaptureAll(KeysOf(dates[..|dates| - 1]), m)
    ensures RevertDays(dates, m).1 == CaptureAll(KeysOf(dates), m)
  {
    var prefix := dates[..|dates| - 1];
    var k := dates[|dates| - 1].0;
    var m1 := RevertDays(prefix, m).0;
    var captured := RevertDays(prefix, m).1;
    assert !HasKey(prefix, k);
    RevertDaysFrame(prefix, m, k);
    assert CaptureDay(m1, k) == CaptureDay(m, k);
    assert !HasKey(captured, k) by {
      assert forall i :: 0 <= i < |captured| ==> captured[i].0 == prefix[i].0;
    }
    assert RevertDays(dates, m).1 == Put(captured, k, CaptureDay(m1, k));
    KeysOfSnoc(dates);
    CaptureAllSnoc(KeysOf(prefix), k, m);
  }

  lemma KeysOfSnoc(dates: DayEntries)
    requires dates != []
    ensures KeysOf(dates) == KeysOf(dates[..|dates| - 1]) + [dates[|dates| - 1].0]
  {
    var ks := KeysOf(dates[..|dates| - 1]) + [dates[|dates| - 1].0];
    assert forall i :: 0 <= i < |dates| ==> ks[i] == dates[i].0;
  }

  lemma NotHasKeyOfKeys(dates: DayEntries, k: DateKey)
    requires forall i :: 0 <= i < |dates| ==> dates[i].0 != k
    ensures !HasKey(dates, k)
  {
  }

  /** Snapshots taken just after reverting a canonical action give that action back. */
  lemma CaptureAfterRevert(dates: DayEntries, m: Assignments)
    requires DistinctKeys(dates)
    requires forall i :: 0 <= i < |dates| ==> CanonicalDay(dates[i].1)
    ensures CaptureAll(KeysOf(dates), RevertDays(dates, m).0) == dates
  {
    var m1 := RevertDays(dates, m).0;
    var c := CaptureAll(KeysOf(dates), m1);
    forall i | 0 <= i < |dates| ensures c[i] == dates[i] {
      RevertDaysAt(dates, m, i);
    }
  }

  /** Reverting a state that differs from `m` only on `keys` with the snapshots of `keys`
      taken on `m` gives `m` back. */
  lemma RevertCaptured(keys: seq<DateKey>, m: Assignments, m2: Assignments)
    requires forall i, j :: 0 <= i < j < |keys| ==> keys[i] != keys[j]
    requires NoEmptyDays(m)
    requires forall k :: k !in keys ==> (k in m2 <==> k in m) && (k in m ==> m2[k] == m[k])
    ensures RevertDays(CaptureAll(keys, m), m2).0 == m
  {
    var dates := CaptureAll(keys, m);
    var r := RevertDays(dates, m2).0;
    assert DistinctKeys(dates);
    forall k ensures (k in r <==> k in m) && (k in m ==> r[k] == m[k]) {
      if k in keys {
        var i :| 0 <= i < |keys| && keys[i] == k;
        RevertDaysAt(dates, m2, i);
      } else {
        NotHasKeyOfKeys(dates, k);
        RevertDaysFrame(dates, m2, k);
      }
    }
  }

  /** Undo of a snapshot recorded just before a change restores the state before the change:
      the change may touch only the recorded days. */
  lemma UndoRevertsRecorded(before: Assignments, h: History, keys: seq<DateKey>, dateLabel: DateKey -> string)
    requires forall i, j :: 0 <= i < j < |keys| ==> keys[i] != keys[j]
    requires NoEmptyDays(before)
    requires forall k :: k !in keys ==>
               (k in h.state.assignments <==> k in before) && (k in before ==> h.state.assignments[k] == before[k])
    requires h.undo != [] && h.undo[|h.undo| - 1] == AssignmentsAction(CaptureAll(keys, before))
    ensures Undo(h, dateLabel).history.state == h.state.(assignments := before)
  {
    RevertCaptured(keys, before, h.state.assignments);
  }

  /** Snapshots of a store without empty days are canonical. */
  lemma CaptureCanonical(keys: seq<DateKey>, m: Assignments)
    requires NoEmptyDays(m)
    ensures forall i :: 0 <= i < |keys| ==> CanonicalDay(CaptureAll(keys, m)[i].1)
  {
  }

  lemma KeysOfCapture(keys: seq<DateKey>, m: Assignments)
    ensures KeysOf(CaptureAll(keys, m)) == keys
  {
  }

  /** The inverse Revert produces, and what reverting with it gives back. */
  lemma RevertRevert(s: CalendarState, a: Action)
    requires Good(a) && NoEmptyDays(s.assignments)
    ensures Good(Revert(s, a).1)
    ensures Revert(Revert(s, a).0, Revert(s, a).1) == (s, a)
  {
    match a
    case NotesAction(k, snap) =>
      var n1 := RestoreNote(s.notes, k, snap);
      assert RestoreNote(n1, k, CaptureNote(s.notes, k)) == s.notes;
      assert CaptureNote(n1, k) == snap;
    case AssignmentsAction(dates) =>
      RevertDaysRevert(dates, s.assignments);
  }

  /** Reverting the days of a canonical action and then reverting with the snapshots this
      captured gives the store and the action back. */
  lemma {:induction false} RevertDaysRevert(dates: DayEntries, m: Assignments)
    requires DistinctKeys(dates) && forall i :: 0 <= i < |dates| ==> CanonicalDay(dates[i].1)
    requires NoEmptyDays(m)
    ensures var (m1, captured) := RevertDays(dates, m);
            && DistinctKeys(captured) && (forall i :: 0 <= i < |captured| ==> CanonicalDay(captured[i].1))
            && RevertDays(captured, m1) == (m, dates)
  {
    var keys := KeysOf(dates);
    var (m1, captured) := RevertDays(dates, m);
    RevertDaysCaptured(dates, m);
    assert forall i, j :: 0 <= i < j < |keys| ==> keys[i] != keys[j];
    CaptureCanonical(keys, m);
    forall k | k !in keys ensures (k in m1 <==> k in m) && (k in m ==> m1[k] == m[k]) {
      NotHasKeyOfKeys(dates, k);
      RevertDaysFrame(dates, m, k);
    }
    RevertCaptured(keys, m, m1);
    KeysOfCapture(keys, m);
    RevertDaysCaptured(captured, m1);
    CaptureAfterRevert(dates, m);
  }

  lemma UndoHistory(h: History, dateLabel: DateKey -> string)
    requires h.undo != []
    ensures Undo(h, dateLabel).history == Undone(h)
  {
  }

  lemma RedoHistory(h: History, dateLabel: DateKey -> string)
    requires h.redo != []
    ensures Redo(h, dateLabel).history == Redone(h)
  {
  }

  /** Pushing a well-formed action onto a redo stack with room appends it. */
  lemma PushRedoWithRoom(h: History, a: Action)
    requires WellFormed(a) && |h.redo| < RedoLimit
    ensures PushRedo(h, ToRaw(a)) == History(h.state, h.undo, h.redo + [a])
  {
    NormalizeToRaw(a);
  }

  /** Pushing a well-formed action onto an undo stack with room appends it. */
  lemma PushUndoWithRoom(h: History, a: Action, clearRedo: bool)
    requires WellFormed(a) && |h.undo| < UndoLimit
    ensures PushUndo(h, ToRaw(a), clearRedo) == History(h.state, h.undo + [a], if clearRedo then [] else h.redo)
  {
    NormalizeToRaw(a);
  }

  lemma DropLastSnoc(stack: seq<Action>)
    requires stack != []
    ensures stack[..|stack| - 1] + [stack[|stack| - 1]] == stack
  {
  }

  /** An undo whose inverse fits on the redo stack appends it there. */
  lemma UndoneWithRoom(h: History)
    requires h.undo != [] && WellFormed(Revert(h.state, h.undo[|h.undo| - 1]).1) && |h.redo| < RedoLimit
    ensures var (s, inverse) := Revert(h.state, h.undo[|h.undo| - 1]);
            Undone(h) == History(s, h.undo[..|h.undo| - 1], h.redo + [inverse])
  {
    var (s, inverse) := Revert(h.state, h.undo[|h.undo| - 1]);
    PushRedoWithRoom(History(s, h.undo[..|h.undo| - 1], h.redo), inverse);
  }

  /** A redo whose inverse fits on the undo stack appends it there. */
  lemma RedoneWithRoom(h: History)
    requires h.redo != [] && WellFormed(Revert(h.state, h.redo[|h.redo| - 1]).1) && |h.undo| < UndoLimit
    ensures var (s, inverse) := Revert(h.state, h.redo[|h.redo| - 1]);
            Redone(h) == History(s, h.undo + [inverse], h.redo[..|h.redo| - 1])
  {
    var (s, inverse) := Revert(h.state, h.redo[|h.redo| - 1]);
    PushUndoWithRoom(History(s, h.undo, h.redo[..|h.redo| - 1]), inverse, false);
  }

  /** Redoing an undone step gives the history back, as long as the redo stack had room for
      the inverse action. */
  lemma UndoneRedone(h: History)
    requires NoEmptyDays(h.state.assignments) && h.undo != [] && Good(h.undo[|h.undo| - 1])
    requires |h.undo| <= UndoLimit && |h.redo| < RedoLimit
    ensures Undone(h).redo != [] && Redone(Undone(h)) == h
  {
    var n := |h.undo| - 1;
    var a := h.undo[n];
    RevertRevert(h.state, a);
    var r := Revert(h.state, a);
    UndoneWithRoom(h);
    var h1 := History(r.0, h.undo[..n], h.redo + [r.1]);
    assert Undone(h) == h1;
    assert h1.redo[|h1.redo| - 1] == r.1 && h1.redo[..|h1.redo| - 1] == h.redo;
    RedoneWithRoom(h1);
    assert Redone(h1) == History(h.state, h.undo[..n] + [a], h.redo);
    DropLastSnoc(h.undo);
  }

  /** Undoing a redone step gives the history back, as long as the undo stack had room. */
  lemma RedoneUndone(h: History)
    requires NoEmptyDays(h.state.assignments) && h.redo != [] && Good(h.redo[|h.redo| - 1])
    requires |h.redo| <= RedoLimit && |h.undo| < UndoLimit
    ensures Redone(h).undo != [] && Undone(Redone(h)) == h
  {
    var n := |h.redo| - 1;
    var a := h.redo[n];
    RevertRevert(h.state, a);
    var r := Revert(h.state, a);
    RedoneWithRoom(h);
    var h1 := History(r.0, h.undo + [r.1], h.redo[..n]);
    assert Redone(h) == h1;
    assert h1.undo[|h1.undo| - 1] == r.1 && h1.undo[..|h1.undo| - 1] == h.undo;
    UndoneWithRoom(h1);
    assert Undone(h1) == History(h.state, h.undo, h.redo[..n] + [a]);
    DropLastSnoc(h.redo);
  }

  /** Redo right after an undo puts back the state and both stacks, as long as the redo stack
      had room for the inverse action (otherwise its oldest entry is trimmed). */
  lemma RedoAfterUndo(h: History, dateLabel: DateKey -> string)
    requires Valid(h) && h.undo != [] && |h.redo| < RedoLimit
    ensures Redo(Undo(h, dateLabel).history, dateLabel).history == h
  {
    AllGoodPop(h.undo);
    UndoneRedone(h);
    UndoHistory(h, dateLabel);
    RedoHistory(Undone(h), dateLabel);
  }

  /** Undo right after a redo puts back the state and both stacks, as long as the undo stack
      had room. */
  lemma UndoAfterRedo(h: History, dateLabel: DateKey -> string)
    requires Valid(h) && h.redo != [] && |h.undo| < UndoLimit
    ensures Undo(Redo(h, dateLabel).history, dateLabel).history == h
  {
    AllGoodPop(h.redo);
    RedoneUndone(h);
    RedoHistory(h, dateLabel);
    UndoHistory(Redone(h), dateLabel);
  }

  /** Undo and redo keep the invariant. */
  lemma UndoKeepsValid(h: History, dateLabel: DateKey -> string)
    requires Valid(h)
    ensures Valid(Undo(h, dateLabel).history)
  {
    if h.undo != [] {
      AllGoodPop(h.undo);
      var a := h.undo[|h.undo| - 1];
      RevertRevert(h.state, a);
      var inverse := Revert(h.state, a).1;
      NormalizeToRaw(inverse);
      AllGoodPush(h.redo, inverse, RedoLimit);
    }
  }

  lemma RedoKeepsValid(h: History, dateLabel: DateKey -> string)
    requires Valid(h)
    ensures Valid(Redo(h, dateLabel).history)
  {
    if h.redo != [] {
      AllGoodPop(h.redo);
      var a := h.redo[|h.redo| - 1];
      RevertRevert(h.state, a);
      var inverse := Revert(h.state, a).1;
      NormalizeToRaw(inverse);
      AllGoodPush(h.undo, inverse, UndoLimit);
    }
  }

  /** Pushing a canonical snapshot keeps the invariant. */
  lemma PushUndoKeepsValid(h: History, a: Action, clearRedo: bool)
    requires Valid(h) && Good(a)
    ensures Valid(PushUndo(h, ToRaw(a), clearRedo))
  {
    NormalizeToRaw(a);
    AllGoodPush(h.undo, a, UndoLimit);
  }
}
