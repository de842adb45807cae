/** The drag state machine of the orders tree and the day lists: `_drag_data` as a record, the
    press, motion and release handlers over the selection state, and the drop message a release
    hands to the drop resolver (`calendar_drop`, delivered here as a return value). Mouse
    positions, the row under the mouse and the calendar day under the mouse are inputs. */
module Drag {
  import opened Core
  import opened Text
  import opened Messages
  import opened Store
  import opened Selection
  import opened Drop

  /** `DRAG_THRESHOLD`, in pixels along either axis. */
  const DragThreshold := 5

  datatype Source = TreeSource | CalendarSource

  /** The keys of `_drag_data`. Tree rows and list rows are positions; `window` is the label of
      the floating drag window (`None` while there is no window). */
  datatype DragData = DragData(
    items: seq<int>,
    values: seq<Assignment>,
    startX: int,
    startY: int,
    window: Option<string>,
    active: bool,
    source: Option<Source>,
    sourceDateKey: Option<DateKey>,
    sourceIndices: seq<int>,
    sourceAssignments: seq<Assignment>,
    snapshot: seq<int>,
    selectionAnchor: Option<int>,
    focusItem: Option<int>,
    activeIndex: Option<int>,
    pendingToggle: bool)

  /** `_reset_drag_state` (and so `_end_drag`): no drag in progress. */
  const Idle := DragData([], [], 0, 0, None, false, None, None, [], [], [], None, None, None, false)

  /** Everything the press, motion and release handlers select: the orders tree, the shown day
      lists, and `_day_selection_anchor`. */
  datatype Selections = Selections(tree: TreeSel, lists: map<DateKey, ListSel>, anchors: map<DateKey, int>)

  /** The message a release queues for `_handle_calendar_drop`. */
  datatype DropMessage = DropMessage(success: bool, message: string, payload: Option<DropPayload>)

  const NoTarget := "Please drop orders onto a valid calendar day."
  const NoOrders := "Unable to determine which order was dragged."

  function Abs(x: int): nat {
    if x < 0 then -x else x
  }

  /** The motion test: far enough along either axis, not by Euclidean distance. */
  predicate Crosses(startX: int, startY: int, x: int, y: int) {
    Abs(x - startX) >= DragThreshold || Abs(y - startY) >= DragThreshold
  }

  lemma SquareAtLeast(d: int, k: nat)
    requires Abs(d) >= k
    ensures d * d >= k * k
  {
    var a := Abs(d);
    assert d * d == a * a;
    assert a * a >= k * a >= k * k;
  }

  lemma SquareBelow(d: int)
    requires Abs(d) < 5
    ensures d * d <= 16
  {
    var a := Abs(d);
    assert d * d == a * a;
    assert a <= 4;
    assert a * a <= 4 * a <= 16;
  }

  /** The per-axis threshold lies between two Euclidean ones: a crossing motion is at least 5
      pixels long, a motion of at least sqrt(50) pixels always crosses, and a diagonal motion of
      (4, 4), about 5.7 pixels, does not. */
  lemma {:induction false} ThresholdIsPerAxis(dx: int, dy: int)
    ensures Crosses(0, 0, dx, dy) ==> dx * dx + dy * dy >= 25
    ensures dx * dx + dy * dy >= 50 ==> Crosses(0, 0, dx, dy)
    ensures !Crosses(0, 0, 4, 4) && 4 * 4 + 4 * 4 > 25
  {
    if Abs(dx) >= 5 {
      SquareAtLeast(dx, 5);
    } else if Abs(dy) >= 5 {
      SquareAtLeast(dy, 5);
    } else {
      SquareBelow(dx);
      SquareBelow(dy);
    }
  }

  // ----- the drag window label -----

  function Labels(values: seq<Assignment>): (r: seq<string>)
    ensures |r| == |values|
    ensures forall i :: 0 <= i < |r| ==> r[i] == FormatAssignmentLabel(values[i])
  {
    seq(|values|, i requires 0 <= i < |values| => FormatAssignmentLabel(values[i]))
  }

  /** The text of the floating drag window: the one label, or the count with the first three
      labels and an ellipsis when there are more. */
  function DragLabel(values: seq<Assignment>): (r: string)
    ensures |values| == 1 ==> r == FormatAssignmentLabel(values[0])
    ensures 1 < |values| <= 3 ==> r == IntToString(|values|) + " orders: " + Join(Labels(values), ", ")
    ensures |values| > 3 ==> r == IntToString(|values|) + " orders: " + Join(Labels(values)[..3], ", ") + ", ..."
  {
    var labels := Labels(values);
    if labels == [] then ""
    else if |labels| == 1 then labels[0]
    else
      var head := IntToString(|labels|) + " orders: ";
      var preview := Join(if |labels| > 3 then labels[..3] else labels, ", ") + (if |labels| > 3 then ", ..." else "");
      head + preview
  }

  /** Several dragged orders show their count first, then the labels of the first three in
      order, and an ellipsis when some are not shown. */
  lemma DragLabelShows(values: seq<Assignment>, i: int)
    requires |values| > 1 && 0 <= i < |values| && i < 3
    ensures var r := DragLabel(values);
            var head := IntToString(|values|) + " orders: ";
            && |head| <= |r| && r[..|head|] == head
            && Contains(r, FormatAssignmentLabel(values[i]))
            && (|values| > 3 ==> |r| >= 5 && r[|r| - 5..] == ", ...")
  {
    var labels := Labels(values);
    var head := IntToString(|values|) + " orders: ";
    var shown := if |values| > 3 then labels[..3] else labels;
    var preview := Join(shown, ", ");
    var tail := if |values| > 3 then ", ..." else "";
    assert DragLabel(values) == head + (preview + tail);
    PrefixOfConcat(head, preview + tail);
    JoinShows(shown, ", ", i);
    assert shown[i] == FormatAssignmentLabel(values[i]);
    ContainsInLeft(preview, tail, shown[i]);
    ContainsInRight(head, preview + tail, shown[i]);
  }

  lemma PrefixOfConcat(a: string, b: string)
    ensures (a + b)[..|a|] == a
  {
  }

  /** A drag window is labelled exactly when something is dragged. */
  lemma {:induction false} DragLabelEmptyIff(values: seq<Assignment>)
    ensures DragLabel(values) == [] <==> values == []
  {
    if |values| == 1 {
      var a := values[0];
      LabelShowsBoth(Strip(a.orderNumber), Strip(a.company));
    }
  }

  // ----- restoring the selection while dragging -----

  /** `_restore_drag_selection` with `n` tree rows and the day lists showing `m`. The tree gets
      back the snapshot rows still shown, its focus and its anchor; the source day list gets back
      its snapshot rows, anchor and active row. Indices outside the list are dropped. */
  function Restore(s: Selections, n: int, m: Assignments, d: DragData): (r: Selections)
    ensures r.anchors == s.anchors && r.lists.Keys == s.lists.Keys
    ensures d.source != Some(CalendarSource) ==> r.lists == s.lists
    ensures d.source != Some(TreeSource) ==> r.tree == s.tree
    ensures d.source == Some(TreeSource) ==> forall i :: i in r.tree.selected <==> i in d.snapshot && 0 <= i < n
    ensures d.source == Some(TreeSource) && IsRow(d.focusItem, n) ==> r.tree.focus == d.focusItem
    ensures d.source == Some(TreeSource) && IsRow(d.selectionAnchor, n) ==> r.tree.anchor == d.selectionAnchor
  {
    if d.source == Some(TreeSource) then
      var preserved := set i | i in d.snapshot && 0 <= i < n;
      var focus := if IsRow(d.focusItem, n) then d.focusItem else s.tree.focus;
      var anchor := if IsRow(d.selectionAnchor, n) then d.selectionAnchor
                    else if preserved == {} then None else s.tree.anchor;
      s.(tree := TreeSel(preserved, anchor, focus))
    else if d.source == Some(CalendarSource) && d.sourceDateKey.Some? && d.sourceDateKey.value in s.lists then
      var k := d.sourceDateKey.value;
      var l := s.lists[k];
      var size := |DayOrders(m, k)|;
      var selected := set i | i in d.snapshot && 0 <= i < size;
      var anchor := if d.selectionAnchor.Some? then d.selectionAnchor.value else l.anchor;
      var active := if d.activeIndex.Some? then d.activeIndex.value else l.active;
      s.(lists := s.lists[k := ListSel(selected, anchor, active)])
    else s
  }

  /** The drag data once `_apply_order_filter` has refilled the tree. The refill deletes every
      tree item and inserts new ones under new ids, so the rows a tree drag recorded (its
      snapshot, its pressed row and its anchor) name no row of the new fill, and the deferred
      toggle, which compares the pressed id with the row under the mouse, can no longer fire.
      The dragged orders are kept as values and can still be dropped. A drag from a day list
      records no tree row and is left alone. */
  function Refilled(d: DragData): (r: DragData)
    ensures d.source == Some(TreeSource) ==>
              r.snapshot == [] && r.focusItem.None? && r.selectionAnchor.None? && !r.pendingToggle
    ensures d.source != Some(TreeSource) ==> r == d
    ensures r.items == d.items && r.values == d.values && r.active == d.active && r.source == d.source
    ensures (r.startX, r.startY, r.window) == (d.startX, d.startY, d.window)
  {
    if d.source == Some(TreeSource) then
      d.(snapshot := [], focusItem := None, selectionAnchor := None, pendingToggle := false)
    else d
  }

  /** After a refill, a tree drag restores no tree selection and no anchor, and its release
      toggles nothing: whatever the new rows are, none of them is selected again. */
  lemma RefilledReleaseSelectsNothing(s: Selections, n: int, m: Assignments, d: DragData, hovered: Option<int>,
                                      target: Option<DateKey>, dateLabel: DateKey -> string)
    requires d.source == Some(TreeSource) && d.items != []
    ensures var r := TreeRelease(s, n, m, Refilled(d), hovered, target, dateLabel);
            r.0.tree.selected == {} && r.0.tree.anchor.None?
    ensures var r := TreeRelease(s, n, m, Refilled(d), hovered, target, dateLabel);
            r.1.Some? <==> d.active
  {
    var d1 := Refilled(d);
    var s1 := Restore(s, n, m, d1);
    assert s1.tree.selected == {};
  }

  // ----- presses -----

  /** The orders behind a sorted selection of rows. */
  function ValuesAt(rows: seq<Assignment>, items: seq<int>): (r: seq<Assignment>)
    requires forall i :: 0 <= i < |items| ==> 0 <= items[i] < |rows|
    ensures |r| == |items| && forall i :: 0 <= i < |r| ==> r[i] == rows[items[i]]
  {
    seq(|items|, i requires 0 <= i < |items| => rows[items[i]])
  }

  /** `_on_order_press` on the tree rows `rows`: every day list loses its selection, the tree
      selection follows the press, and the drag data records the selected rows in tree order,
      their orders, the start point, the anchor, the pressed row and the deferred toggle. */
  function PressTree(s: Selections, rows: seq<Assignment>, row: Option<int>, ctrl: bool, shift: bool, x: int, y: int): (r: (Selections, DragData))
    requires row.Some? ==> 0 <= row.value < |rows|
    ensures r.0.lists.Keys == s.lists.Keys && forall k :: k in r.0.lists ==> r.0.lists[k].selected == {}
    ensures r.0.anchors == s.anchors
    ensures r.0.tree == TreePress(s.tree, |rows|, row, ctrl, shift).0
    ensures !r.1.active && r.1.source == Some(TreeSource) && r.1.sourceDateKey.None? && r.1.startX == x && r.1.startY == y
    ensures r.1.pendingToggle == TreePress(s.tree, |rows|, row, ctrl, shift).1
    ensures r.1.snapshot == r.1.items && r.1.sourceAssignments == r.1.values && r.1.selectionAnchor == r.0.tree.anchor
    ensures row.None? ==> r.1.items == [] && r.1.focusItem.None?
    ensures row.Some? ==> r.1.focusItem == row && r.1.items == SortedIndices(r.0.tree.selected, |rows|)
    ensures |r.1.values| == |r.1.items| && forall i :: 0 <= i < |r.1.items| ==> 0 <= r.1.items[i] < |rows| && r.1.values[i] == rows[r.1.items[i]]
  {
    var lists := ClearOthers(s.lists, None);
    var (t, pending) := TreePress(s.tree, |rows|, row, ctrl, shift);
    var s1 := s.(tree := t, lists := lists);
    if row.None? then
      (s1, DragData([], [], x, y, None, false, Some(TreeSource), None, [], [], [], t.anchor, None, None, false))
    else
      var items := SortedIndices(t.selected, |rows|);
      var values := ValuesAt(rows, items);
      (s1, DragData(items, values, x, y, None, false, Some(TreeSource), None, [], values, items, t.anchor, row, None, pending))
  }

  function AnchorOf(anchors: map<DateKey, int>, k: DateKey): Option<int> {
    if k in anchors then Some(anchors[k]) else None
  }

  function SetAnchor(anchors: map<DateKey, int>, k: DateKey, a: Option<int>): (r: map<DateKey, int>)
    ensures AnchorOf(r, k) == a && forall j :: j != k ==> AnchorOf(r, j) == AnchorOf(anchors, j)
  {
    if a.Some? then anchors[k := a.value] else anchors - {k}
  }

  /** `_on_day_order_press` on the shown day `key` of the store `m`: every other day list loses
      its selection; a press on a row selects as `DayPress` says and the drag data records the
      selected rows (which are also the index hints), their orders, the day, the list anchor and
      the pressed row. A press on an empty day records only the day; a press beside the rows
      prepares no drag. */
  function PressDay(s: Selections, m: Assignments, key: DateKey, row: int, onRow: bool, ctrl: bool, shift: bool, x: int, y: int): (r: (Selections, DragData))
    ensures r.0.tree == s.tree && r.0.lists.Keys == s.lists.Keys
    ensures forall k :: k in r.0.lists && k != key ==> r.0.lists[k] == s.lists[k].(selected := {})
    ensures key !in s.lists ==> r.0.anchors == s.anchors && r.1 == Idle
    ensures forall k :: k != key ==> AnchorOf(r.0.anchors, k) == AnchorOf(s.anchors, k)
    ensures key in s.lists ==>
              var p := DayPress(s.lists[key], |DayOrders(m, key)|, AnchorOf(s.anchors, key), row, onRow, ctrl, shift);
              r.0.lists[key] == p.0 && AnchorOf(r.0.anchors, key) == p.1
    ensures !r.1.active && !r.1.pendingToggle && r.1.focusItem.None?
    ensures r.1.items != [] ==> r.1.source == Some(CalendarSource) && r.1.sourceDateKey == Some(key) && r.1.startX == x && r.1.startY == y
    ensures r.1.items != [] ==> r.1.items == SortedIndices(r.0.lists[key].selected, |DayOrders(m, key)|) && r.1.activeIndex == Some(row)
    ensures r.1.items != [] ==> r.1.sourceIndices == r.1.items && r.1.snapshot == r.1.items && r.1.sourceAssignments == r.1.values
    ensures |r.1.values| == |r.1.items| && forall i :: 0 <= i < |r.1.items| ==> 0 <= r.1.items[i] < |DayOrders(m, key)| && r.1.values[i] == DayOrders(m, key)[r.1.items[i]]
  {
    var lists := ClearOthers(s.lists, Some(key));
    if key !in lists then (s.(lists := lists), Idle)
    else
      var orders := DayOrders(m, key);
      var (l, a, hit) := DayPress(lists[key], |orders|, AnchorOf(s.anchors, key), row, onRow, ctrl, shift);
      var s1 := Selections(s.tree, lists[key := l], SetAnchor(s.anchors, key, a));
      if orders == [] then
        (s1, DragData([], [], x, y, None, false, Some(CalendarSource), Some(key), [], [], [], None, None, None, false))
      else if !hit then (s1, Idle)
      else
        var items := SortedIndices(l.selected, |orders|);
        var values := ValuesAt(orders, items);
        (s1, DragData(items, values, x, y, None, false, Some(CalendarSource), Some(key), items, values, items, Some(l.anchor), None, Some(row), false))
  }

  // ----- motion -----

  /** `_begin_drag`: with something to drag, the deferred toggle is dropped, the window shows
      the drag label and the drag becomes active. */
  function Begin(d: DragData): (r: DragData)
    ensures d.items == [] ==> r == d
    ensures d.items != [] ==> r == d.(pendingToggle := false, window := Some(DragLabel(d.values)), active := true)
  {
    if d.items == [] then d
    else d.(pendingToggle := false, window := Some(DragLabel(d.values)), active := true)
  }

  /** The common tail of both motion handlers: a drag that is not yet active begins once the
      mouse has crossed the threshold, and the selection is restored again. */
  function Follow(s: Selections, n: int, m: Assignments, d: DragData, x: int, y: int): (r: (Selections, DragData))
    requires d.items != []
    ensures r.1.active <==> d.active || Crosses(d.startX, d.startY, x, y)
    ensures !d.active && Crosses(d.startX, d.startY, x, y) ==> r.1 == Begin(d) && r.0 == Restore(s, n, m, Begin(d))
    ensures !(!d.active && Crosses(d.startX, d.startY, x, y)) ==> r == (s, d)
  {
    if !d.active && Crosses(d.startX, d.startY, x, y) then
      var d1 := Begin(d);
      (Restore(s, n, m, d1), d1)
    else (s, d)
  }

  /** `_on_order_drag` at mouse `(x, y)` over the tree row `hovered`: moving off the pressed
      row cancels a deferred toggle; then the selection is restored and the drag may begin. */
  function TreeMotion(s: Selections, n: int, m: Assignments, d: DragData, hovered: Option<int>, x: int, y: int): (r: (Selections, DragData))
    ensures d.items == [] ==> r == (s, d)
    ensures d.items != [] ==> (r.1.active <==> d.active || Crosses(d.startX, d.startY, x, y))
    ensures d.items != [] && r.1.pendingToggle ==> d.pendingToggle && (d.focusItem.Some? ==> hovered == d.focusItem)
    ensures d.items != [] && !d.active && Crosses(d.startX, d.startY, x, y) ==> !r.1.pendingToggle
    ensures r.1.items == d.items && r.1.values == d.values && r.1.snapshot == d.snapshot
  {
    if d.items == [] then (s, d)
    else
      var d1 := if d.pendingToggle && d.focusItem.Some? && hovered != d.focusItem then d.(pendingToggle := false) else d;
      Follow(Restore(s, n, m, d1), n, m, d1, x, y)
  }

  /** `_on_day_order_drag`: the same without a deferred toggle. */
  function DayMotion(s: Selections, n: int, m: Assignments, d: DragData, x: int, y: int): (r: (Selections, DragData))
    ensures d.items == [] ==> r == (s, d)
    ensures d.items != [] ==> (r.1.active <==> d.active || Crosses(d.startX, d.startY, x, y))
    ensures r.1.items == d.items && r.1.values == d.values && r.1.sourceIndices == d.sourceIndices
  {
    if d.items == [] then (s, d)
    else Follow(Restore(s, n, m, d), n, m, d, x, y)
  }

  // ----- releases -----

  /** The payload form of orders: their (order, company) values. */
  function Encode(orders: seq<Assignment>): (r: seq<seq<string>>)
    ensures |r| == |orders| && forall i :: 0 <= i < |r| ==> r[i] == AssignmentValues(orders[i])
  {
    seq(|orders|, i requires 0 <= i < |orders| => AssignmentValues(orders[i]))
  }

  lemma EncodeNormalizes(orders: seq<Assignment>)
    ensures NormalizeOrders(Encode(orders)) == orders
  {
    forall i | 0 <= i < |orders| ensures NormalizeOrders(Encode(orders))[i] == orders[i] {
      NormalizeAssignmentValues(orders[i]);
    }
  }

  /** `_on_order_release` over the tree row `hovered`, with `target` the calendar day under the
      mouse. Without an active drag, a deferred toggle on the pressed row deselects it now
      (clearing the anchor if nothing is left selected); with one, a drop on a day queues the
      orders, anything else a failure. The drag data is reset afterwards in every case. */
  function TreeRelease(s: Selections, n: int, m: Assignments, d: DragData, hovered: Option<int>, target: Option<DateKey>, dateLabel: DateKey -> string): (r: (Selections, Option<DropMessage>))
    ensures d.items == [] ==> r == (s, None)
    ensures r.1.Some? <==> d.items != [] && d.active
    ensures r.1.Some? && r.1.value.success ==> target.Some? && d.values != []
    ensures d.items != [] && d.active && target.None? ==> r.1 == Some(DropMessage(false, NoTarget, None))
  {
    if d.items == [] then (s, None)
    else
      var s1 := Restore(s, n, m, d);
      if !d.active then
        if d.pendingToggle && d.focusItem.Some? && hovered == d.focusItem then
          var selected := s1.tree.selected - {d.focusItem.value};
          (s1.(tree := s1.tree.(selected := selected, anchor := if selected == {} then None else s1.tree.anchor)), None)
        else (s1, None)
      else if target.None? then (s1, Some(DropMessage(false, NoTarget, None)))
      else if d.values == [] then (s1, Some(DropMessage(false, NoOrders, None)))
      else
        var k := target.value;
        var message := FormatMoveMessage(d.values, dateLabel(k), None, false);
        (s1, Some(DropMessage(true, message, Some(DropPayload(KeyTuple(k), Encode(d.values), Some("tree"), None, [], [])))))
  }

  /** `_on_day_order_release` on the day list of `key`. Only a release on the day the drag
      started from, of an active drag with rows, queues anything: the orders, the source day,
      its index hints and orders, and the move message. */
  function DayRelease(s: Selections, n: int, m: Assignments, d: DragData, key: DateKey, target: Option<DateKey>, dateLabel: DateKey -> string): (r: (Selections, Option<DropMessage>))
    ensures r.1.Some? <==> d.source == Some(CalendarSource) && d.sourceDateKey == Some(key) && d.items != [] && d.active
    ensures r.1.Some? && r.1.value.success ==> target.Some? && d.values != []
    ensures r.1.Some? && target.None? ==> r.1 == Some(DropMessage(false, NoTarget, None))
    ensures r.0.tree == s.tree
  {
    if d.source != Some(CalendarSource) || d.sourceDateKey != Some(key) || d.items == [] then (s, None)
    else
      var s1 := Restore(s, n, m, d);
      if !d.active then (s1, None)
      else if target.None? then (s1, Some(DropMessage(false, NoTarget, None)))
      else if d.values == [] then (s1, Some(DropMessage(false, NoOrders, None)))
      else
        var k := target.value;
        var message := FormatMoveMessage(d.values, dateLabel(k), Some(dateLabel(key)), key == k);
        var payload := DropPayload(KeyTuple(k), Encode(d.values), Some("calendar"), Some(KeyTuple(key)),
                                   d.sourceIndices, Encode(d.sourceAssignments));
        (s1, Some(DropMessage(true, message, Some(payload))))
  }

  // ----- what the handlers promise together -----

  /** A tree drop reaches the resolver as a drop of the dragged orders with no source day, which
      clears the tree afterwards. */
  lemma TreeDropRequest(s: Selections, n: int, m: Assignments, d: DragData, hovered: Option<int>, target: Option<DateKey>, dateLabel: DateKey -> string)
    requires d.items != [] && d.active && target.Some? && d.values != []
    ensures var msg := TreeRelease(s, n, m, d, hovered, target, dateLabel).1.value;
            msg.success && msg.payload.Some? &&
            ReadPayload(msg.payload.value) == Some(DropRequest(target.value, d.values, true, None, false, d.values, []))
  {
    EncodeNormalizes(d.values);
    EncodeNormalizes([]);
  }

  /** A day-list drop reaches the resolver with its source day, the dragged rows as index hints
      and the dragged orders; it deselects exactly when it moves to another day. */
  lemma DayDropRequest(s: Selections, n: int, m: Assignments, d: DragData, key: DateKey, target: Option<DateKey>, dateLabel: DateKey -> string)
    requires d.source == Some(CalendarSource) && d.sourceDateKey == Some(key) && d.items != [] && d.active
    requires target.Some? && d.values != []
    ensures var msg := DayRelease(s, n, m, d, key, target, dateLabel).1.value;
            msg.success && msg.payload.Some? &&
            ReadPayload(msg.payload.value) ==
              Some(DropRequest(target.value, d.values, false, Some(key), key != target.value,
                               if d.sourceAssignments != [] then d.sourceAssignments else d.values, d.sourceIndices))
  {
    EncodeNormalizes(d.values);
    EncodeNormalizes(d.sourceAssignments);
    NormalizeKeyTuple(key);
  }

  /** The snapshot a press takes is exactly the tree selection, so restoring it changes nothing. */
  lemma {:induction false} RestoreAfterPress(s: Selections, rows: seq<Assignment>, m: Assignments, row: int, ctrl: bool, shift: bool, x: int, y: int)
    requires 0 <= row < |rows| && TreeValid(s.tree, |rows|)
    ensures var (s1, d1) := PressTree(s, rows, Some(row), ctrl, shift, x, y);
            Restore(s1, |rows|, m, d1).tree.selected == s1.tree.selected && Restore(s1, |rows|, m, d1).tree.focus == Some(row)
  {
    var (s1, d1) := PressTree(s, rows, Some(row), ctrl, shift, x, y);
    SortedIndicesElems(s1.tree.selected, |rows|);
    var r := Restore(s1, |rows|, m, d1);
    assert forall i :: i in r.tree.selected <==> i in s1.tree.selected by {
      assert forall i :: i in d1.snapshot <==> i in Elems(d1.snapshot);
    }
  }

  /** The deferred ctrl-toggle of the tree: a ctrl-click on a row that is released on the same
      row without dragging flips that row's membership in the selection and leaves every other
      row as it was; a selected row is deselected on the release, not on the press. */
  lemma {:induction false} CtrlClickToggles(s: Selections, rows: seq<Assignment>, m: Assignments, row: int, x: int, y: int,
                                            target: Option<DateKey>, dateLabel: DateKey -> string)
    requires 0 <= row < |rows| && TreeValid(s.tree, |rows|)
    ensures var (s1, d1) := PressTree(s, rows, Some(row), true, false, x, y);
            var (s2, msg) := TreeRelease(s1, |rows|, m, d1, Some(row), target, dateLabel);
            msg.None? &&
            (row in s1.tree.selected) &&
            (row in s2.tree.selected <==> row !in s.tree.selected) &&
            (forall i :: i != row ==> (i in s2.tree.selected <==> i in s.tree.selected))
  {
    var (s1, d1) := PressTree(s, rows, Some(row), true, false, x, y);
    RestoreAfterPress(s, rows, m, row, true, false, x, y);
    assert d1.items != [] by {
      assert row in SortedIndices(s1.tree.selected, |rows|);
    }
  }

  /** Dragging cancels the deferred toggle: once a ctrl-press on a selected row turns into a
      drag, the row stays selected and the release drops the orders instead. */
  lemma {:induction false} DragCancelsToggle(s: Selections, rows: seq<Assignment>, m: Assignments, row: int, x: int, y: int, x2: int, y2: int, hovered: Option<int>)
    requires 0 <= row < |rows| && TreeValid(s.tree, |rows|) && row in s.tree.selected
    requires Crosses(x, y, x2, y2)
    ensures var (s1, d1) := PressTree(s, rows, Some(row), true, false, x, y);
            var (s2, d2) := TreeMotion(s1, |rows|, m, d1, hovered, x2, y2);
            d1.pendingToggle && d2.active && !d2.pendingToggle && row in s2.tree.selected
  {
    var (s1, d1) := PressTree(s, rows, Some(row), true, false, x, y);
    RestoreAfterPress(s, rows, m, row, true, false, x, y);
    assert row in SortedIndices(s1.tree.selected, |rows|);
    assert row in d1.snapshot;
  }
}
