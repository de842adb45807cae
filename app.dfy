/** The application object `YBSApp` without its widgets: the fields the calendar handlers read
    and change, and the handlers as methods that change them. Each method states its whole new
    state in terms of the functions of the other modules, and keeps the application invariant:
    no empty day, bounded stacks of well-formed snapshots, a month in 1..12 and a tree selection
    inside the tree's rows. The shown days (`_day_cells`) are the keys of the list-box map. */
module App {
  import opened Core
  import opened Text
  import opened Histories = History
  import opened Store
  import opened Drop
  import opened Selection
  import opened Drag
  import StateCodec
  import Messages
  import Geometry

  // ----- the day cells -----

  /** The header text of a day cell (`_update_day_cell_display`): the day number, then the
      number of orders in parentheses when the day has any. */
  function DayHeader(k: DateKey, m: Assignments): string {
    Header(IntToString(k.day), |DayOrders(m, k)|)
  }

  function Header(day: string, n: nat): string {
    if n > 0 then day + " (" + NatToString(n) + ")" else day
  }

  /** The header starts with the day number; it is the bare number exactly when the day has no
      orders, and otherwise the number in parentheses reads back as the day's order count. */
  lemma DayHeaderShowsCount(k: DateKey, m: Assignments)
    ensures var r := DayHeader(k, m);
            var d := IntToString(k.day);
            var n := |DayOrders(m, k)|;
            && |d| <= |r| && r[..|d|] == d
            && (r == d <==> n == 0)
            && (n > 0 ==> && |r| >= |d| + 3 && r[|d|..|d| + 2] == " (" && r[|r| - 1] == ')'
                          && ParseInt(r[|d| + 2..|r| - 1]) == Some(n))
  {
    HeaderShowsCount(IntToString(k.day), |DayOrders(m, k)|);
  }

  lemma HeaderShowsCount(d: string, n: nat)
    ensures var r := Header(d, n);
            && |d| <= |r| && r[..|d|] == d
            && (r == d <==> n == 0)
            && (n > 0 ==> && |r| >= |d| + 3 && r[|d|..|d| + 2] == " (" && r[|r| - 1] == ')'
                          && ParseInt(r[|d| + 2..|r| - 1]) == Some(n))
  {
    if n > 0 {
      CountedHeader(d, n);
    }
  }

  lemma CountedHeader(d: string, n: nat)
    requires n > 0
    ensures var r := d + " (" + NatToString(n) + ")";
            && |r| >= |d| + 3 && r[..|d|] == d && r[|d|..|d| + 2] == " (" && r[|r| - 1] == ')'
            && r[|d| + 2..|r| - 1] == NatToString(n) && ParseInt(NatToString(n)) == Some(n)
  {
    var digits := NatToString(n);
    var r := d + " (" + digits + ")";
    assert |r| == |d| + |digits| + 3;
    assert r[..|d|] == d;
    assert r[|d|..|d| + 2] == " (";
    assert r[|d| + 2..|r| - 1] == digits;
    ParseDecimal(n);
  }

  /** The list boxes of freshly drawn day cells. */
  function Fresh(shown: set<DateKey>): map<DateKey, ListSel> {
    map k | k in shown :: FreshList
  }

  /** `_update_day_cell_display` on the days `keys`: a shown day's list box is refilled, which
      drops its selection and keeps its anchor and active row; every other list box stays. */
  function Redrawn(lists: map<DateKey, ListSel>, keys: seq<DateKey>): (r: map<DateKey, ListSel>)
    ensures r.Keys == lists.Keys
    ensures forall k :: k in lists && k in keys ==>
              r[k].selected == {} && r[k].anchor == lists[k].anchor && r[k].active == lists[k].active
    ensures forall k :: k in lists && k !in keys ==> r[k] == lists[k]
  {
    map k | k in lists :: if k in keys then lists[k].(selected := {}) else lists[k]
  }

  // ----- what a drop does to the selections -----

  /** `apply_selection` inside `_handle_calendar_drop`: the list box selects those of `indices`
      that are rows, and the last of them becomes its anchor and active row. */
  function ApplySelection(l: ListSel, indices: seq<int>, size: int): (r: ListSel)
    ensures forall i :: i in r.selected <==> i in indices && 0 <= i < size
  {
    var valid := InRange(indices, size);
    if valid == [] then l.(selected := {}) else ListSel(Elems(valid), valid[|valid| - 1], valid[|valid| - 1])
  }

  /** The sorted selection of a shown day's list box (`curselection`), empty for a day that is
      not shown. */
  function SelectionBefore(lists: map<DateKey, ListSel>, m: Assignments, k: DateKey): seq<int> {
    if k in lists then SortedIndices(lists[k].selected, |DayOrders(m, k)|) else []
  }

  /** `apply_selection` on the list box of `k`, when it is shown. */
  function Reselect(lists: map<DateKey, ListSel>, k: DateKey, indices: seq<int>, size: int): (r: map<DateKey, ListSel>)
    ensures r.Keys == lists.Keys
    ensures k in lists ==> r[k] == ApplySelection(lists[k], indices, size)
    ensures forall j :: j in lists && j != k ==> r[j] == lists[j]
  {
    if k in lists then lists[k := ApplySelection(lists[k], indices, size)] else lists
  }

  /** The selection part of `_handle_calendar_drop` for an accepted drop `rq` on the store `m`,
      where `e` is what the drop did to the store. The selections of the target and of another
      source day are read before the change; a move to another day forgets both days' anchors;
      the changed days are redrawn; a drop from the tree that changed something clears the tree;
      the target then selects its previous rows (moved along on a same-day drop) followed by the
      dropped orders, the source day its adjusted rows, and finally every day but the target
      loses its selection. */
  function DropSelections(s: Selections, m: Assignments, rq: DropRequest, e: DropEffect): (r: Selections)
    ensures r.lists.Keys == s.lists.Keys
    ensures forall k :: k in r.lists && k != rq.key ==> r.lists[k].selected == {}
  {
    var key := rq.key;
    var crossDay := rq.source.Some? && rq.source.value != key;
    var combined := CombinedSelection(SelectionBefore(s.lists, m, key), e.removedSorted, e.targetIndices, rq.source == Some(key), rq.deselect);
    var anchors := if rq.deselect && rq.source.Some? then s.anchors - {key, rq.source.value} else s.anchors;
    var tree := if rq.clearTree && (e.added || e.removedFromSource) then ClearTree(s.tree) else s.tree;
    var lists1 := Redrawn(s.lists, [key] + (if crossDay then [rq.source.value] else []));
    var lists2 := Reselect(lists1, key, combined, |DayOrders(e.assignments, key)|);
    var lists3 := if crossDay then
                    var sourceAfter := if rq.deselect then [] else Adjusted(SelectionBefore(s.lists, m, rq.source.value), e.removedSorted);
                    Reselect(lists2, rq.source.value, sourceAfter, |DayOrders(e.assignments, rq.source.value)|)
                  else lists2;
    Selections(tree, ClearOthers(lists3, Some(key)), anchors)
  }

  /** After a drop the target's list box selects only its rows and every dropped order at its
      new row (or nothing, on a move to another day, which also forgets both anchors); a drop
      from the tree keeps the target's earlier selection; the tree is cleared exactly when a tree
      drop changed something. */
  lemma DropSelectionsEffect(s: Selections, m: Assignments, rq: DropRequest)
    requires rq.orders != [] && rq.sourceOrders != []
    ensures var e := ApplyDrop(m, rq);
            var r := DropSelections(s, m, rq, e);
            var key := rq.key;
            var size := |DayOrders(e.assignments, key)|;
            && |e.targetIndices| == |rq.orders|
            && (key in r.lists ==> RowsIn(r.lists[key].selected, size))
            && (key in r.lists && !rq.deselect ==> forall p :: 0 <= p < |rq.orders| ==> e.targetIndices[p] in r.lists[key].selected)
            && (key in r.lists && rq.deselect ==> r.lists[key].selected == {})
            && (rq.source.None? && !rq.deselect && key in s.lists ==>
                  forall i :: i in s.lists[key].selected && 0 <= i < |DayOrders(m, key)| ==> i in r.lists[key].selected)
            && (rq.deselect && rq.source.Some? ==> AnchorOf(r.anchors, key).None? && AnchorOf(r.anchors, rq.source.value).None?)
            && (!rq.deselect ==> r.anchors == s.anchors)
            && r.tree == (if rq.clearTree && (e.added || e.removedFromSource) then ClearTree(s.tree) else s.tree)
  {
    DropContents(m, rq);
    TargetSelection(s, m, rq, ApplyDrop(m, rq));
  }

  /** The same for any store effect that puts the dropped orders at rows of the target and,
      for a drop without a source day, keeps the target's rows. */
  lemma TargetSelection(s: Selections, m: Assignments, rq: DropRequest, e: DropEffect)
    requires |e.targetIndices| == |rq.orders|
    requires forall p :: 0 <= p < |rq.orders| ==> 0 <= e.targetIndices[p] < |DayOrders(e.assignments, rq.key)|
    requires rq.source.None? ==> |DayOrders(e.assignments, rq.key)| >= |DayOrders(m, rq.key)|
    ensures var r := DropSelections(s, m, rq, e);
            var key := rq.key;
            var size := |DayOrders(e.assignments, key)|;
            && (key in r.lists ==> RowsIn(r.lists[key].selected, size))
            && (key in r.lists && !rq.deselect ==> forall p :: 0 <= p < |rq.orders| ==> e.targetIndices[p] in r.lists[key].selected)
            && (key in r.lists && rq.deselect ==> r.lists[key].selected == {})
            && (rq.source.None? && !rq.deselect && key in s.lists ==>
                  forall i :: i in s.lists[key].selected && 0 <= i < |DayOrders(m, key)| ==> i in r.lists[key].selected)
            && (rq.deselect && rq.source.Some? ==> AnchorOf(r.anchors, key).None? && AnchorOf(r.anchors, rq.source.value).None?)
            && (!rq.deselect ==> r.anchors == s.anchors)
  {
    if rq.key in s.lists {
      TargetRows(s, m, rq, e);
    }
  }

  /** The target part of `TargetSelection`, for a shown target. */
  lemma TargetRows(s: Selections, m: Assignments, rq: DropRequest, e: DropEffect)
    requires rq.key in s.lists
    requires |e.targetIndices| == |rq.orders|
    requires forall p :: 0 <= p < |rq.orders| ==> 0 <= e.targetIndices[p] < |DayOrders(e.assignments, rq.key)|
    requires rq.source.None? ==> |DayOrders(e.assignments, rq.key)| >= |DayOrders(m, rq.key)|
    ensures var l := DropSelections(s, m, rq, e).lists[rq.key];
            var size := |DayOrders(e.assignments, rq.key)|;
            && RowsIn(l.selected, size)
            && (!rq.deselect ==> forall p :: 0 <= p < |rq.orders| ==> e.targetIndices[p] in l.selected)
            && (rq.deselect ==> l.selected == {})
            && (rq.source.None? && !rq.deselect ==>
                  forall i :: i in s.lists[rq.key].selected && 0 <= i < |DayOrders(m, rq.key)| ==> i in l.selected)
  {
    var key := rq.key;
    var size := |DayOrders(e.assignments, key)|;
    var before := SelectionBefore(s.lists, m, key);
    var combined := CombinedSelection(before, e.removedSorted, e.targetIndices, rq.source == Some(key), rq.deselect);
    TargetSelected(s, m, rq, e);
    var kept := if rq.source.None? && !rq.deselect then set i | i in s.lists[key].selected && 0 <= i < |DayOrders(m, key)| else {};
    if rq.source.None? && !rq.deselect {
      assert combined == AddNew(AddNew([], before), e.targetIndices);
      forall i | i in kept ensures i in combined && 0 <= i < size {
        assert i in before;
      }
    }
    SelectionRows(s.lists[key].(selected := {}), combined, size, e.targetIndices, kept, rq.deselect);
  }

  /** What applying a combined selection leaves selected: rows of the list only, every target
      row, and every row of `kept`; nothing when the drop deselects. */
  lemma SelectionRows(l0: ListSel, combined: seq<int>, size: int, targets: seq<int>, kept: set<int>, deselect: bool)
    requires deselect ==> combined == []
    requires !deselect ==> forall p :: 0 <= p < |targets| ==> targets[p] in combined
    requires forall p :: 0 <= p < |targets| ==> 0 <= targets[p] < size
    requires forall i :: i in kept ==> i in combined && 0 <= i < size
    ensures var l := ApplySelection(l0, combined, size);
            && RowsIn(l.selected, size)
            && (!deselect ==> forall p :: 0 <= p < |targets| ==> targets[p] in l.selected)
            && (deselect ==> l.selected == {})
            && (forall i :: i in kept ==> i in l.selected)
  {
  }

  /** The target's list box ends up as the combined selection applied to its redrawn list. */
  lemma TargetSelected(s: Selections, m: Assignments, rq: DropRequest, e: DropEffect)
    requires rq.key in s.lists
    ensures DropSelections(s, m, rq, e).lists[rq.key] ==
              ApplySelection(s.lists[rq.key].(selected := {}),
                             CombinedSelection(SelectionBefore(s.lists, m, rq.key), e.removedSorted, e.targetIndices, rq.source == Some(rq.key), rq.deselect),
                             |DayOrders(e.assignments, rq.key)|)
  {
    var key := rq.key;
    var crossDay := rq.source.Some? && rq.source.value != key;
    var lists1 := Redrawn(s.lists, [key] + (if crossDay then [rq.source.value] else []));
    assert lists1[key] == s.lists[key].(selected := {});
    var combined := CombinedSelection(SelectionBefore(s.lists, m, key), e.removedSorted, e.targetIndices, rq.source == Some(key), rq.deselect);
    var lists2 := Reselect(lists1, key, combined, |DayOrders(e.assignments, key)|);
    assert lists2[key] == ApplySelection(lists1[key], combined, |DayOrders(e.assignments, key)|);
  }

  // ----- the application state -----

  /** All the fields the handlers change, as one value. */
  datatype AppState = AppState(
    history: Histories.History,
    selections: Selections,
    drag: DragData,
    allOrders: seq<Assignment>,
    rows: seq<Assignment>,
    filterText: string,
    year: int,
    month: int,
    activeHeader: Option<DateKey>,
    status: string,
    statusOk: bool,
    savePending: bool)

  ghost predicate AppValid(st: AppState) {
    && Valid(st.history)
    && 1 <= st.month <= 12
    && TreeValid(st.selections.tree, |st.rows|)
  }

  /** The invariant only looks at the history, the month, the tree selection and the rows. */
  lemma AppValidFrame(st: AppState, st1: AppState)
    requires AppValid(st)
    requires st1.history == st.history && st1.month == st.month
    requires st1.selections.tree == st.selections.tree && st1.rows == st.rows
    ensures AppValid(st1)
  {
  }

  /** `_on_day_order_delete` on the day `k`: nothing for a day that is not shown; otherwise
      the store and history change as `DeleteSelected` says for the day's list-box selection,
      the status shows its message, and the list box is redrawn without a selection when the
      day was empty or the delete went through. */
  function Deleted(st: AppState, k: DateKey, dateLabel: DateKey -> string): AppState {
    if k !in st.selections.lists then st
    else
      var o := DeleteSelected(st.history, k, st.selections.lists[k].selected, dateLabel);
      var cleared := DayOrders(st.history.state.assignments, k) == [] || o.ok;
      st.(history := o.history,
          selections := st.selections.(lists := if cleared then Redrawn(st.selections.lists, [k]) else st.selections.lists),
          status := o.message, statusOk := o.ok, savePending := st.savePending || o.saveScheduled)
  }

  /** A delete keeps the invariant. */
  lemma DeletedKeepsValid(st: AppState, k: DateKey, dateLabel: DateKey -> string)
    requires AppValid(st)
    ensures AppValid(Deleted(st, k, dateLabel))
  {
    if k in st.selections.lists {
      var selection := st.selections.lists[k].selected;
      DeleteSelectedFails(st.history, k, selection, dateLabel);
      if DeleteSelected(st.history, k, selection, dateLabel).ok {
        DeleteSelectedEffect(st.history, k, selection, dateLabel);
      }
    }
  }

  /** What the window shows after an undo, a redo, a clear or a dialog removal with outcome
      `o`: its history, the days it names redrawn, its message in the status label, and a save
      scheduled when it asks for one. */
  function Applied(st: AppState, o: Outcome): AppState {
    st.(history := o.history, selections := st.selections.(lists := Redrawn(st.selections.lists, o.refreshed)),
        status := o.message, statusOk := o.ok, savePending := st.savePending || o.saveScheduled)
  }

  /** `clear_day` on the day `k`: the store and history change as `ClearDay` says, the status
      shows its message, and the day's list box is redrawn when the day was cleared. */
  function Cleared(st: AppState, k: DateKey, dateLabel: DateKey -> string): AppState {
    Applied(st, ClearDay(st.history, k, dateLabel))
  }

  lemma ClearedKeepsValid(st: AppState, k: DateKey, dateLabel: DateKey -> string)
    requires AppValid(st)
    ensures AppValid(Cleared(st, k, dateLabel))
  {
    ClearDayEffect(st.history, k, dateLabel);
  }

  /** `remove_selected` of the day dialog on the day `k`: as `Cleared`, with `RemoveSelected`
      in place of `ClearDay`. */
  function DialogRemoved(st: AppState, k: DateKey, selection: seq<int>, dateLabel: DateKey -> string): AppState {
    Applied(st, RemoveSelected(st.history, k, selection, dateLabel).0)
  }

  lemma DialogRemovedKeepsValid(st: AppState, k: DateKey, selection: seq<int>, dateLabel: DateKey -> string)
    requires AppValid(st)
    ensures AppValid(DialogRemoved(st, k, selection, dateLabel))
  {
    RemoveSelectedEffect(st.history, k, selection, dateLabel);
  }

  /** `_handle_calendar_drop`: the status shows the message; a successful message with an
      accepted payload goes on to change the store, the history and the selections. */
  function Dropped(st: AppState, success: bool, message: string, payload: Option<DropPayload>): AppState {
    var st1 := st.(status := message, statusOk := success);
    if Accepts(success, payload) then Accepted(st1, ReadPayload(payload.value).value) else st1
  }

  /** Whether `_handle_calendar_drop` goes past its checks: a successful message whose payload
      names a day and at least one order. */
  predicate Accepts(success: bool, payload: Option<DropPayload>) {
    success && payload.Some? && ReadPayload(payload.value).Some?
  }

  /** The accepted drop `rq`: the store and history change as `DropHistory` says, the
      selections as `DropSelections` says, and a save is scheduled when something was added or
      removed. */
  function Accepted(st: AppState, rq: DropRequest): AppState {
    var m := st.history.state.assignments;
    var e := ApplyDrop(m, rq);
    st.(history := DropHistory(st.history, rq), selections := DropSelections(st.selections, m, rq, e),
        savePending := st.savePending || e.added || e.removedFromSource)
  }

  /** An accepted drop changes the history, the selections and the save flag only. */
  lemma AcceptedFrame(st: AppState, rq: DropRequest)
    ensures var r := Accepted(st, rq);
            r == st.(history := r.history, selections := r.selections, savePending := r.savePending)
  {
  }

  lemma AcceptedKeepsValid(st: AppState, rq: DropRequest, dateLabel: DateKey -> string)
    requires AppValid(st) && rq.orders != [] && rq.sourceOrders != []
    ensures AppValid(Accepted(st, rq))
  {
    DropTreeValid(st.selections, |st.rows|, st.history.state.assignments, rq, ApplyDrop(st.history.state.assignments, rq));
    DropHistoryValid(st.history, rq, dateLabel);
  }

  /** A drop keeps the tree selection inside the rows. */
  lemma DropTreeValid(s: Selections, n: int, m: Assignments, rq: DropRequest, e: DropEffect)
    requires TreeValid(s.tree, n)
    ensures TreeValid(DropSelections(s, m, rq, e).tree, n)
  {
  }

  /** Popping the sorted valid rows after the snapshot is the delete that `DeleteSelected`
      describes. */
  lemma DeleteByPopping(h: Histories.History, k: DateKey, selection: set<int>, dateLabel: DateKey -> string,
                        valid: seq<int>, remaining: seq<Assignment>, removed: seq<Assignment>)
    requires var list := DayOrders(h.state.assignments, k);
             && list != [] && selection != {} && valid == SortedIndices(selection, |list|) && valid != []
             && remaining == Keep(list, Elems(valid)) && removed == Pick(list, Elems(valid))
    ensures DeleteSelected(h, k, selection, dateLabel) ==
              Outcome(WithAssignments(Record(h, [k]), SetDay(h.state.assignments, k, remaining)), true,
                      Messages.FormatBulkRemovalMessage(removed, dateLabel(k)), [k], true)
  {
    KeepAgree(DayOrders(h.state.assignments, k), Elems(valid), selection);
  }

  /** Restoring the drag selection keeps the tree selection inside the rows. */
  lemma RestoreKeepsTreeValid(s: Selections, n: int, m: Assignments, d: DragData)
    requires TreeValid(s.tree, n)
    ensures TreeValid(Restore(s, n, m, d).tree, n)
  {
  }

  /** A mouse motion over the orders tree keeps the invariant. */
  lemma TreeMotionKeepsValid(st: AppState, hovered: Option<int>, x: int, y: int)
    requires AppValid(st)
    ensures var r := TreeMotion(st.selections, |st.rows|, st.history.state.assignments, st.drag, hovered, x, y);
            AppValid(st.(selections := r.0, drag := r.1))
  {
    var s, n, m, d := st.selections, |st.rows|, st.history.state.assignments, st.drag;
    if d.items != [] {
      var d1 := if d.pendingToggle && d.focusItem.Some? && hovered != d.focusItem then d.(pendingToggle := false) else d;
      RestoreKeepsTreeValid(s, n, m, d1);
      RestoreKeepsTreeValid(Restore(s, n, m, d1), n, m, Begin(d1));
    }
  }

  /** A mouse motion over a day list box keeps the invariant. */
  lemma DayMotionKeepsValid(st: AppState, x: int, y: int)
    requires AppValid(st)
    ensures var r := DayMotion(st.selections, |st.rows|, st.history.state.assignments, st.drag, x, y);
            AppValid(st.(selections := r.0, drag := r.1))
  {
    var s, n, m, d := st.selections, |st.rows|, st.history.state.assignments, st.drag;
    if d.items != [] {
      RestoreKeepsTreeValid(s, n, m, d);
      RestoreKeepsTreeValid(Restore(s, n, m, d), n, m, Begin(d));
    }
  }

  /** Releasing over the orders tree keeps the invariant. */
  lemma TreeReleaseKeepsValid(st: AppState, hovered: Option<int>, target: Option<DateKey>, dateLabel: DateKey -> string)
    requires AppValid(st)
    ensures var r := TreeRelease(st.selections, |st.rows|, st.history.state.assignments, st.drag, hovered, target, dateLabel);
            AppValid(st.(selections := r.0, drag := Idle))
  {
    RestoreKeepsTreeValid(st.selections, |st.rows|, st.history.state.assignments, st.drag);
  }

  /** Refilling the orders tree keeps the invariant. */
  lemma FilteredKeepsValid(st: AppState, text: string, shown: seq<Assignment>)
    requires AppValid(st)
    ensures AppValid(st.(filterText := text, rows := shown, selections := st.selections.(tree := ClearTree(st.selections.tree))))
  {
  }

  /** A handled drop message keeps the invariant. */
  lemma DroppedKeepsValid(st: AppState, success: bool, message: string, payload: Option<DropPayload>, dateLabel: DateKey -> string)
    requires AppValid(st)
    ensures AppValid(Dropped(st, success, message, payload))
  {
    if success && payload.Some? && ReadPayload(payload.value).Some? {
      AcceptedKeepsValid(st.(status := message, statusOk := success), ReadPayload(payload.value).value, dateLabel);
    }
  }

  class CalendarApp {
    /** `state`, `undo_stack` and `redo_stack`. */
    var history: Histories.History
    /** The selections of the orders tree and of the day list boxes, with the list boxes'
        `_day_selection_anchor`. */
    var selections: Selections
    /** `_drag_data`. */
    var drag: DragData
    /** `_orders_cache`, the rows the tree shows, and the filter entry's text. */
    var allOrders: seq<Assignment>
    var rows: seq<Assignment>
    var filterText: string
    /** `current_year` and `current_month`. */
    var year: int
    var month: int
    /** `_active_day_header`. */
    var activeHeader: Option<DateKey>
    /** The status label's text and whether it shows success. */
    var status: string
    var statusOk: bool
    /** Whether `_schedule_save` has a save pending. */
    var savePending: bool
    /** `_format_date_label`. */
    const dateLabel: DateKey -> string

    function State(): AppState
      reads this
    {
      AppState(history, selections, drag, allOrders, rows, filterText, year, month, activeHeader, status, statusOk, savePending)
    }

    ghost predicate Valid()
      reads this
    {
      AppValid(State())
    }

    /** `__init__` with the state file's contents `data` (`None` when it is missing or not
        JSON), today's month and the days the first calendar page shows. */
    constructor(dateLabel: DateKey -> string, data: Option<StateCodec.Json>, year: int, month: int, shown: set<DateKey>)
      requires 1 <= month <= 12
      ensures Valid() && this.dateLabel == dateLabel
      ensures State() == AppState(Histories.History(StateCodec.Load(data), [], []), Selections(TreeSel({}, None, None), Fresh(shown), map[]),
                                  Idle, [], [], "", year, month, None, "", false, false)
    {
      history := Histories.History(StateCodec.Load(data), [], []);
      selections, drag := Selections(TreeSel({}, None, None), Fresh(shown), map[]), Idle;
      allOrders, rows, filterText := [], [], "";
      this.year, this.month, activeHeader := year, month, None;
      status, statusOk, savePending := "", false, false;
      this.dateLabel := dateLabel;
    }

    // ----- the store -----

    /** `_save_day_notes` with the text of the day's note editor. */
    method SaveDayNotes(k: DateKey, text: string)
      requires Valid()
      modifies this
      ensures Valid()
      ensures k !in old(selections.lists) ==> State() == old(State())
      ensures k in old(selections.lists) ==> State() == old(State()).(history := SaveDayNote(old(history), k, text),
                                         savePending := old(savePending) || StoredNotes(old(history.state.notes), k, text) != old(history.state.notes))
    {
      if k in selections.lists {
        StoreDayNote(k, text);
      }
    }

    /** `_save_day_notes` for a shown day: the note is stored and a save is scheduled when the
        note store changed. */
    method StoreDayNote(k: DateKey, text: string)
      requires Valid()
      modifies this
      ensures Valid()
      ensures State() == old(State()).(history := SaveDayNote(old(history), k, text),
                                       savePending := old(savePending) || StoredNotes(old(history.state.notes), k, text) != old(history.state.notes))
    {
      var h := history;
      SaveDayNoteValid(h, k, text);
      history, savePending := SaveDayNote(h, k, text), savePending || StoredNotes(h.state.notes, k, text) != h.state.notes;
    }

    /** `_on_day_order_delete`: the selected rows of a shown day are popped from the highest
        down after an undo snapshot; the list box loses its selection. */
    method OnDayOrderDelete(k: DateKey)
      requires Valid()
      modifies this
      ensures Valid()
      ensures State() == Deleted(old(State()), k, dateLabel)
    {
      ghost var st := State();
      DeleteDayOrders(k);
      DeletedKeepsValid(st, k, dateLabel);
    }

    /** The body of `_on_day_order_delete`; the invariant is kept by `DeletedKeepsValid`. */
    method DeleteDayOrders(k: DateKey)
      modifies this
      ensures State() == Deleted(old(State()), k, dateLabel)
    {
      if k !in selections.lists {
        return;
      }
      var h := history;
      var list := DayOrders(h.state.assignments, k);
      var selection := selections.lists[k].selected;
      if list == [] {
        selections, status, statusOk := selections.(lists := Redrawn(selections.lists, [k])), "No orders scheduled for this day.", false;
        return;
      }
      if selection == {} {
        status, statusOk := "Please select at least one order to remove.", false;
        return;
      }
      var valid := SortedIndices(selection, |list|);
      if valid == [] {
        status, statusOk := "Unable to determine which orders to remove.", false;
        return;
      }
      PopSelectedRows(k, list, valid);
      DeleteByPopping(h, k, selection, dateLabel, valid, Keep(list, Elems(valid)), Pick(list, Elems(valid)));
    }

    /** The success path of `_on_day_order_delete`: an undo snapshot of the day, then its rows
        at the ascending positions `valid` popped from the highest down. */
    method PopSelectedRows(k: DateKey, list: seq<Assignment>, valid: seq<int>)
      requires k in selections.lists && list == DayOrders(history.state.assignments, k)
      requires forall i :: 0 <= i < |valid| ==> 0 <= valid[i] < |list|
      requires forall i, j :: 0 <= i < j < |valid| ==> valid[i] < valid[j]
      modifies this
      ensures State() == old(State()).(history := WithAssignments(Record(old(history), [k]), SetDay(old(history.state.assignments), k, Keep(list, Elems(valid)))),
                                       selections := old(selections).(lists := Redrawn(old(selections.lists), [k])),
                                       status := Messages.FormatBulkRemovalMessage(Pick(list, Elems(valid)), dateLabel(k)),
                                       statusOk := true, savePending := true)
    {
      var h := history;
      var remaining, removed := PopIndices(list, valid);
      var message := Messages.FormatBulkRemovalMessage(removed, dateLabel(k));
      ApplyOutcome(Outcome(WithAssignments(Record(h, [k]), SetDay(h.state.assignments, k, remaining)), true, message, [k], true));
    }

    /** `clear_day` of the day dialog, and `_on_day_clear_request` once it has a day. */
    method ClearDayOrders(k: DateKey)
      requires Valid()
      modifies this
      ensures Valid()
      ensures State() == Cleared(old(State()), k, dateLabel)
    {
      ghost var st := State();
      var o := ClearDay(history, k, dateLabel);
      ApplyOutcome(o);
      ClearedKeepsValid(st, k, dateLabel);
    }

    /** The history, the redrawn days, the status label and the save flag after an outcome. */
    method ApplyOutcome(o: Outcome)
      modifies this
      ensures State() == Applied(old(State()), o)
    {
      history, selections, status, statusOk, savePending :=
        o.history, selections.(lists := Redrawn(selections.lists, o.refreshed)), o.message, o.ok, savePending || o.saveScheduled;
    }

    /** `_on_day_clear_request`: the given day, else the day whose header is active, else
        nothing. */
    method OnDayClearRequest(key: Option<DateKey>)
      requires Valid()
      modifies this
      ensures Valid()
      ensures var k := if key.Some? then key else old(activeHeader);
              State() == if k.Some? then Cleared(old(State()), k.value, dateLabel) else old(State())
    {
      var k := if key.Some? then key else activeHeader;
      if k.Some? {
        ClearDayOrders(k.value);
      }
    }

    /** `remove_selected` of the day dialog, with the dialog list's selection; the result is
        the row the dialog selects afterwards. */
    method DialogRemoveSelected(k: DateKey, selection: seq<int>) returns (next: Option<int>)
      requires Valid()
      modifies this
      ensures Valid()
      ensures next == RemoveSelected(old(history), k, selection, dateLabel).1
      ensures State() == DialogRemoved(old(State()), k, selection, dateLabel)
    {
      ghost var st := State();
      var r := RemoveSelected(history, k, selection, dateLabel);
      ApplyOutcome(r.0);
      next := r.1;
      DialogRemovedKeepsValid(st, k, selection, dateLabel);
    }

    /** `_assign_order_to_day`: the day is redrawn either way; a new order schedules a save. */
    method AssignOrderToDay(k: DateKey, values: seq<string>, pushUndo: bool) returns (added: bool)
      requires Valid()
      modifies this
      ensures Valid()
      ensures var r := AssignOrder(old(history), k, values, pushUndo);
              && added == r.1
              && State() == old(State()).(history := r.0, selections := old(selections).(lists := Redrawn(old(selections.lists), [k])),
                                          savePending := old(savePending) || r.1)
    {
      var r := AssignOrder(history, k, values, pushUndo);
      AssignOrderUndoable(history, k, values, pushUndo, dateLabel);
      history := r.0;
      selections := selections.(lists := Redrawn(selections.lists, [k]));
      savePending := savePending || r.1;
      added := r.1;
    }

    // ----- undo and redo -----

    /** `_undo_last_action`: the restored days are redrawn and the status reports them. */
    method UndoLastAction()
      requires Valid()
      modifies this
      ensures Valid()
      ensures State() == Applied(old(State()), Undo(old(history), dateLabel))
    {
      UndoKeepsValid(history, dateLabel);
      var o := Undo(history, dateLabel);
      ApplyOutcome(o);
    }

    /** `_redo_last_action`. */
    method RedoLastAction()
      requires Valid()
      modifies this
      ensures Valid()
      ensures State() == Applied(old(State()), Redo(old(history), dateLabel))
    {
      RedoKeepsValid(history, dateLabel);
      var o := Redo(history, dateLabel);
      ApplyOutcome(o);
    }

    // ----- drops -----

    /** `_handle_calendar_drop` on a `calendar_drop` message. */
    method HandleCalendarDrop(success: bool, message: string, payload: Option<DropPayload>)
      requires Valid()
      modifies this
      ensures Valid()
      ensures !Accepts(success, payload) ==> State() == old(State()).(status := message, statusOk := success)
      ensures Accepts(success, payload) ==>
                State() == Accepted(old(State()).(status := message, statusOk := success), ReadPayload(payload.value).value)
    {
      status, statusOk := message, success;
      if !success || payload.None? {
        return;
      }
      var request := ReadPayload(payload.value);
      if request.None? {
        return;
      }
      ghost var st := State();
      ApplyDropRequest(request.value);
      AcceptedKeepsValid(st, request.value, dateLabel);
    }

    /** The part of `_handle_calendar_drop` after its checks; the invariant is kept by
        `AcceptedKeepsValid`. */
    method ApplyDropRequest(rq: DropRequest)
      modifies this
      ensures State() == Accepted(old(State()), rq)
    {
      var next := Accepted(State(), rq);
      AcceptedFrame(State(), rq);
      history, selections, savePending := next.history, next.selections, next.savePending;
    }

    // ----- the orders tree -----

    /** `_on_order_press` with `row` the tree row under the mouse, if any. */
    method OnOrderPress(row: Option<int>, ctrl: bool, shift: bool, x: int, y: int)
      requires Valid()
      requires row.Some? ==> 0 <= row.value < |rows|
      modifies this
      ensures Valid()
      ensures var r := PressTree(old(selections), old(rows), row, ctrl, shift, x, y);
              State() == old(State()).(selections := r.0, drag := r.1)
    {
      var r := PressTree(selections, rows, row, ctrl, shift, x, y);
      selections, drag := r.0, r.1;
    }

    /** `_on_order_drag` with the tree row under the mouse. */
    method OnOrderDrag(hovered: Option<int>, x: int, y: int)
      requires Valid()
      modifies this
      ensures Valid()
      ensures var r := TreeMotion(old(selections), |old(rows)|, old(history.state.assignments), old(drag), hovered, x, y);
              State() == old(State()).(selections := r.0, drag := r.1)
    {
      TreeMotionKeepsValid(State(), hovered, x, y);
      var r := TreeMotion(selections, |rows|, history.state.assignments, drag, hovered, x, y);
      selections, drag := r.0, r.1;
    }

    /** `_on_order_release` with the tree row and the calendar day under the mouse; the
        message it queues is handled at once. */
    method OnOrderRelease(hovered: Option<int>, target: Option<DateKey>)
      requires Valid()
      modifies this
      ensures Valid()
      ensures var r := TreeRelease(old(selections), |old(rows)|, old(history.state.assignments), old(drag), hovered, target, dateLabel);
              var st := old(State()).(selections := r.0, drag := Idle);
              State() == if r.1.Some? then Dropped(st, r.1.value.success, r.1.value.message, r.1.value.payload) else st
    {
      var r := TreeRelease(selections, |rows|, history.state.assignments, drag, hovered, target, dateLabel);
      TreeReleaseKeepsValid(State(), hovered, target, dateLabel);
      selections, drag := r.0, Idle;
      if r.1.Some? {
        HandleCalendarDrop(r.1.value.success, r.1.value.message, r.1.value.payload);
      }
    }

    /** `_navigate_tree_with_keyboard`. */
    method NavigateTreeWithKeyboard(direction: int, shift: bool)
      requires Valid()
      modifies this
      ensures Valid()
      ensures State() == old(State()).(selections := old(selections).(tree := NavigateTree(old(selections.tree), |old(rows)|, direction, shift)))
    {
      selections := selections.(tree := NavigateTree(selections.tree, |rows|, direction, shift));
    }

    /** `_apply_order_filter`: the tree is refilled with the matching orders, which clears its
        selection, focus and anchor. It can run while a tree press is held (a key released in
        the filter entry, or a refresh arriving), and then the rows that press recorded are
        gone (`Refilled`). */
    method ApplyOrderFilter(text: string)
      requires Valid()
      modifies this
      ensures Valid()
      ensures State() == old(State()).(filterText := text, rows := Messages.FilterOrders(old(allOrders), text),
                                       selections := old(selections).(tree := ClearTree(old(selections.tree))),
                                       drag := Refilled(old(drag)))
    {
      RefillTree(text);
      ForgetTreeDragRows();
    }

    /** The delete and insert loops of `_apply_order_filter`. */
    method RefillTree(text: string)
      requires Valid()
      modifies this
      ensures Valid()
      ensures State() == old(State()).(filterText := text, rows := Messages.FilterOrders(old(allOrders), text),
                                       selections := old(selections).(tree := ClearTree(old(selections.tree))))
    {
      var shown := Messages.ApplyOrderFilter(allOrders, text);
      FilteredKeepsValid(State(), text, shown);
      filterText, rows, selections := text, shown, selections.(tree := ClearTree(selections.tree));
    }

    /** The refill gives every tree row a new id, so the rows a tree drag recorded are lost. */
    method ForgetTreeDragRows()
      requires Valid()
      modifies this
      ensures Valid()
      ensures State() == old(State()).(drag := Refilled(old(drag)))
    {
      drag := Refilled(drag);
    }

    /** `_populate_orders` with the orders of a refresh. */
    method PopulateOrders(orders: seq<Assignment>)
      requires Valid()
      modifies this
      ensures Valid()
      ensures State() == old(State()).(allOrders := orders, rows := Messages.FilterOrders(orders, old(filterText)),
                                       selections := old(selections).(tree := ClearTree(old(selections.tree))),
                                       drag := Refilled(old(drag)))
    {
      allOrders := orders;
      ApplyOrderFilter(filterText);
    }

    // ----- the day list boxes -----

    /** `_on_day_order_press` on the list of `key`, with the nearest row and whether the mouse
        is inside it. */
    method OnDayOrderPress(key: DateKey, row: int, onRow: bool, ctrl: bool, shift: bool, x: int, y: int)
      requires Valid()
      modifies this
      ensures Valid()
      ensures var r := PressDay(old(selections), old(history.state.assignments), key, row, onRow, ctrl, shift, x, y);
              State() == old(State()).(selections := r.0, drag := r.1)
    {
      var r := PressDay(selections, history.state.assignments, key, row, onRow, ctrl, shift, x, y);
      selections, drag := r.0, r.1;
    }

    /** `_on_day_order_drag`. */
    method OnDayOrderDrag(x: int, y: int)
      requires Valid()
      modifies this
      ensures Valid()
      ensures var r := DayMotion(old(selections), |old(rows)|, old(history.state.assignments), old(drag), x, y);
              State() == old(State()).(selections := r.0, drag := r.1)
    {
      DayMotionKeepsValid(State(), x, y);
      var r := DayMotion(selections, |rows|, history.state.assignments, drag, x, y);
      selections, drag := r.0, r.1;
    }

    /** `_on_day_order_release` on the list of `key`, with the calendar day under the mouse;
        the message it queues is handled at once. */
    method OnDayOrderRelease(key: DateKey, target: Option<DateKey>)
      requires Valid()
      modifies this
      ensures Valid()
      ensures var r := DayRelease(old(selections), |old(rows)|, old(history.state.assignments), old(drag), key, target, dateLabel);
              var st := old(State()).(selections := r.0, drag := Idle);
              State() == if r.1.Some? then Dropped(st, r.1.value.success, r.1.value.message, r.1.value.payload) else st
    {
      var r := DayRelease(selections, |rows|, history.state.assignments, drag, key, target, dateLabel);
      selections, drag := r.0, Idle;
      if r.1.Some? {
        HandleCalendarDrop(r.1.value.success, r.1.value.message, r.1.value.payload);
      }
    }

    /** `_on_day_order_key_navigate` on the list of a shown day. */
    method OnDayOrderKeyNavigate(key: DateKey, direction: int, shift: bool, ctrl: bool)
      requires Valid()
      modifies this
      ensures Valid()
      ensures key !in old(selections.lists) ==> State() == old(State())
      ensures key in old(selections.lists) ==>
                var s := old(selections);
                var r := DayKeyNavigate(s.lists[key], |DayOrders(old(history.state.assignments), key)|, AnchorOf(s.anchors, key), direction, shift, ctrl);
                State() == old(State()).(selections := Selections(s.tree, s.lists[key := r.0], SetAnchor(s.anchors, key, r.1)))
    {
      var s := selections;
      if key in s.lists {
        var r := DayKeyNavigate(s.lists[key], |DayOrders(history.state.assignments, key)|, AnchorOf(s.anchors, key), direction, shift, ctrl);
        selections := Selections(s.tree, s.lists[key := r.0], SetAnchor(s.anchors, key, r.1));
      }
    }

    // ----- the shown month -----

    /** `_change_month` followed by `_render_calendar`: first every shown day's note is saved
        from its editor (`texts` holds what was typed into the editors; an editor without an
        entry still holds the note it was drawn with), visiting the days in the order `order` of
        the cell map; then the month moves by `delta` and the calendar shows the days `shown` in
        fresh cells; a day header stays active only while it is shown. */
    method ChangeMonth(delta: int, shown: set<DateKey>, order: seq<DateKey>, texts: map<DateKey, string>)
      requires Valid()
      requires StateCodec.IsOrdering(order, selections.lists.Keys)
      modifies this
      ensures Valid()
      ensures var (y, m) := Geometry.FromMonthIndex(Geometry.MonthIndex(old(year), old(month)) + delta);
              var saved := SaveShownNotes(old(history), order, old(selections.lists).Keys, texts);
              State() == old(State()).(history := saved.0, savePending := old(savePending) || saved.1,
                                       year := y, month := m,
                                       selections := old(selections).(lists := Fresh(shown)),
                                       activeHeader := if old(activeHeader).Some? && old(activeHeader).value in shown then old(activeHeader) else None)
    {
      SaveShownDays(order, texts);
      var newYear, newMonth := Geometry.ChangeMonth(year, month, delta);
      var header := if activeHeader.Some? && activeHeader.value !in shown then None else activeHeader;
      year, month, selections, activeHeader := newYear, newMonth, selections.(lists := Fresh(shown)), header;
    }

    /** The loop of `_render_calendar` that saves the note of every day cell before the cells
        are destroyed. */
    method SaveShownDays(order: seq<DateKey>, texts: map<DateKey, string>)
      requires Valid()
      modifies this
      ensures Valid()
      ensures var saved := SaveShownNotes(old(history), order, old(selections.lists).Keys, texts);
              State() == old(State()).(history := saved.0, savePending := old(savePending) || saved.1)
    {
      ghost var st := State();
      ghost var total := SaveShownNotes(history, order, selections.lists.Keys, texts);
      var i := 0;
      assert order[0..] == order;
      while i < |order|
        invariant 0 <= i <= |order|
        invariant Valid()
        invariant State() == st.(history := history, savePending := savePending)
        invariant SaveShownNotes(history, order[i..], st.selections.lists.Keys, texts).0 == total.0
        invariant (savePending || SaveShownNotes(history, order[i..], st.selections.lists.Keys, texts).1) == (st.savePending || total.1)
      {
        var k := order[i];
        assert order[i..][1..] == order[i + 1..];
        if k in selections.lists {
          StoreDayNote(k, EditorText(texts, history.state.notes, k));
        }
        i := i + 1;
      }
    }
  }
}
