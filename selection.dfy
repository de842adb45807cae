/** The selection state of the orders tree and of the day list boxes, over row positions.
    A tree row is identified by its position among the tree's rows, and a list-box row by its
    index. The source's tree item ids are unique within one fill of the tree, and a refill gives
    every row a new id, while positions are reused across fills; so a row recorded before a
    refill must be forgotten when the tree is refilled (`Drag.Refilled`). */
module Selection {
  import opened Core
  import opened Store

  /** The rows from `a` to `b` inclusive, in either order: `children[min:max + 1]` or
      `range(min, max + 1)`. */
  function Span(a: int, b: int): (r: set<int>)
    ensures forall i :: i in r <==> (a <= i <= b || b <= i <= a)
    ensures a in r && b in r
  {
    if a <= b then Rows(a, b) else Rows(b, a)
  }

  /** The rows from `lo` to `hi` inclusive. */
  function Rows(lo: int, hi: int): (r: set<int>)
    ensures forall i :: i in r <==> lo <= i <= hi
    decreases hi - lo
  {
    if hi < lo then {} else Rows(lo, hi - 1) + {hi}
  }

  /** `max(0, min(i, n - 1))` on a non-empty list of rows. */
  function Clamp(i: int, n: int): (r: int)
    requires n > 0
    ensures 0 <= r < n
    ensures 0 <= i < n ==> r == i
    ensures i < 0 ==> r == 0
    ensures i >= n ==> r == n - 1
  {
    if i < 0 then 0 else if i >= n then n - 1 else i
  }

  predicate IsRow(p: Option<int>, n: int) {
    p.Some? && 0 <= p.value < n
  }

  predicate RowsIn(s: set<int>, n: int) {
    forall i :: i in s ==> 0 <= i < n
  }

  // ----- the orders tree -----

  /** The tree's selected rows, `_tree_selection_anchor` and the tree focus (`None` for the
      empty focus). The anchor may name a row that is no longer shown. */
  datatype TreeSel = TreeSel(selected: set<int>, anchor: Option<int>, focus: Option<int>)

  predicate TreeValid(t: TreeSel, n: int) {
    RowsIn(t.selected, n) && (t.focus.Some? ==> 0 <= t.focus.value < n)
  }

  /** `_normalize_tree_anchor`: the anchor while it names a shown row, otherwise none (and the
      stored anchor is cleared, so the stored anchor is the result either way). */
  function NormalizeAnchor(anchor: Option<int>, n: int): (r: Option<int>)
    ensures IsRow(anchor, n) ==> r == anchor
    ensures !IsRow(anchor, n) ==> r == None
  {
    if IsRow(anchor, n) then anchor else None
  }

  /** The row a tree navigation starts from: the focus if it is shown, else the first row for a
      downward step and the last for an upward one. */
  function TreeStart(t: TreeSel, n: int, direction: int): (r: int)
    requires n > 0
    ensures 0 <= r < n
    ensures IsRow(t.focus, n) ==> r == t.focus.value
  {
    if IsRow(t.focus, n) then t.focus.value else if direction >= 0 then 0 else n - 1
  }

  /** `_navigate_tree_with_keyboard` over `n` rows. The focus moves one step (clamped to the rows);
      with shift the selection becomes the run of rows between the anchor (kept while shown,
      else the starting row) and the new focus; otherwise just the new focus, which becomes the
      anchor. Nothing changes in an empty tree. */
  function NavigateTree(t: TreeSel, n: int, direction: int, shift: bool): (r: TreeSel)
    ensures n <= 0 ==> r == t
    ensures n > 0 ==> r.focus == Some(Clamp(TreeStart(t, n, direction) + direction, n))
    ensures n > 0 ==> TreeValid(r, n) && IsRow(r.anchor, n) && r.focus.value in r.selected
    ensures n > 0 && shift ==> r.selected == Span(r.anchor.value, r.focus.value)
    ensures n > 0 && shift && IsRow(t.anchor, n) ==> r.anchor == t.anchor
    ensures n > 0 && shift && !IsRow(t.anchor, n) ==> r.anchor == Some(TreeStart(t, n, direction))
    ensures n > 0 && !shift ==> r.selected == {r.focus.value} && r.anchor == r.focus
  {
    if n <= 0 then t
    else
      var start := TreeStart(t, n, direction);
      var target := Clamp(start + direction, n);
      if shift then
        var kept := NormalizeAnchor(t.anchor, n);
        var anchor := if kept.Some? then kept.value else start;
        TreeSel(Span(anchor, target), Some(anchor), Some(target))
      else
        TreeSel({target}, Some(target), Some(target))
  }

  /** The selection part of `_on_order_press`, with `row` the row under the mouse (`None`
      between rows) and the returned flag the deferred ctrl-toggle. A ctrl-press on a selected
      row does not deselect it yet: it sets the flag, and the release decides. */
  function TreePress(t: TreeSel, n: int, row: Option<int>, ctrl: bool, shift: bool): (r: (TreeSel, bool))
    requires row.Some? ==> 0 <= row.value < n
    ensures TreeValid(t, n) ==> TreeValid(r.0, n)
    ensures row.None? ==> !r.1 && r.0.focus == t.focus
    ensures row.None? && !ctrl && !shift ==> r.0.selected == {} && r.0.anchor == None
    ensures row.None? && (ctrl || shift) ==> r.0 == t
    ensures row.Some? ==> r.0.focus == row && row.value in r.0.selected
    ensures row.Some? && !r.1 ==> IsRow(r.0.anchor, n)
    ensures r.1 <==> row.Some? && ctrl && !shift && row.value in t.selected
    ensures row.Some? && shift && IsRow(t.anchor, n) ==> r.0.anchor == t.anchor
    ensures row.Some? && shift ==> r.0.selected == Span(r.0.anchor.value, row.value)
    ensures row.Some? && ctrl && !shift ==> r.0.selected == t.selected + {row.value}
    ensures row.Some? && !ctrl && !shift && row.value in t.selected ==> r.0.selected == t.selected
    ensures row.Some? && !ctrl && !shift && row.value !in t.selected ==> r.0.selected == {row.value}
    ensures row.Some? && !ctrl && !shift ==> r.0.anchor == row
  {
    if row.None? then
      (if !ctrl && !shift then TreeSel({}, None, t.focus) else t, false)
    else
      var item := row.value;
      var anchor := NormalizeAnchor(t.anchor, n);
      if shift then
        var a := if anchor.Some? then anchor.value else item;
        (TreeSel(Span(a, item), Some(a), row), false)
      else if ctrl then
        if item in t.selected then (TreeSel(t.selected, anchor, row), true)
        else (TreeSel(t.selected + {item}, if anchor.None? then row else anchor, row), false)
      else if item in t.selected then (TreeSel(t.selected, row, row), false)
      else (TreeSel({item}, row, row), false)
  }

  /** `_clear_tree_selection`. */
  function ClearTree(t: TreeSel): (r: TreeSel)
    ensures r.selected == {} && r.anchor.None? && r.focus.None?
  {
    TreeSel({}, None, None)
  }

  // ----- the day list boxes -----

  /** A day list box: its selected rows, its selection anchor and its active row (a list box
      always has both, whether or not they name a row). */
  datatype ListSel = ListSel(selected: set<int>, anchor: int, active: int)

  /** A list box whose rows have just been refilled. */
  const FreshList := ListSel({}, 0, 0)

  /** The selection part of `_on_day_order_press` on a day with `size` orders. `row` is the row
      nearest the mouse and `onRow` says whether the mouse is inside that row's box;
      `dayAnchor` is the day's entry in `_day_selection_anchor`. The result is the new list
      state, the new entry, and whether a row was pressed (only then is a drag prepared). */
  function DayPress(l: ListSel, size: int, dayAnchor: Option<int>, row: int, onRow: bool, ctrl: bool, shift: bool): (r: (ListSel, Option<int>, bool))
    ensures RowsIn(l.selected, size) ==> RowsIn(r.0.selected, size)
    ensures size <= 0 ==> r.0.selected == {} && r.1 == None && !r.2
    ensures r.2 <==> size > 0 && 0 <= row < size && onRow
    ensures size > 0 && !r.2 ==> r.1 == dayAnchor && r.0.selected == (if ctrl || shift then l.selected else {})
    ensures r.2 ==> r.0.active == row
    ensures r.2 && shift ==> IsRow(r.1, size) && r.0.selected == Span(r.1.value, row) && r.0.anchor == r.1.value
    ensures r.2 && shift && IsRow(dayAnchor, size) ==> r.1 == dayAnchor
    ensures r.2 && ctrl && !shift ==> r.1 == dayAnchor && (row in r.0.selected <==> row !in l.selected)
    ensures r.2 && ctrl && !shift ==> forall i :: i != row ==> (i in r.0.selected <==> i in l.selected)
    ensures r.2 && !ctrl && !shift ==> row in r.0.selected && r.1 == Some(row) && r.0.anchor == row
    ensures r.2 && !ctrl && !shift ==> r.0.selected == (if row in l.selected then l.selected else {row})
  {
    if size <= 0 then (l.(selected := {}), None, false)
    else if !(0 <= row < size) || !onRow then
      (if !ctrl && !shift then l.(selected := {}) else l, dayAnchor, false)
    else if shift then
      var a := if IsRow(dayAnchor, size) then dayAnchor.value else row;
      (ListSel(Span(a, row), a, row), Some(a), true)
    else if ctrl then
      if row in l.selected then (ListSel(l.selected - {row}, l.anchor, row), dayAnchor, true)
      else (ListSel(l.selected + {row}, row, row), dayAnchor, true)
    else
      (ListSel(if row in l.selected then l.selected else {row}, row, row), Some(row), true)
  }

  /** The row a day-list navigation starts from: the active row if it is a row, else the last
      selected row, else the day's stored anchor if it is a row, else the active index as it is. */
  function ListStart(l: ListSel, size: int, dayAnchor: Option<int>): (r: int)
    requires size > 0
    ensures 0 <= l.active < size ==> r == l.active
    ensures !(0 <= l.active < size) && SortedIndices(l.selected, size) == [] && IsRow(dayAnchor, size) ==> r == dayAnchor.value
  {
    var selection := SortedIndices(l.selected, size);
    var a := if 0 <= l.active < size then l.active
             else if selection != [] then selection[|selection| - 1]
             else l.active;
    if 0 <= a < size then a else if IsRow(dayAnchor, size) then dayAnchor.value else a
  }

  /** `_on_day_order_key_navigate` on a day list with `size` rows: the target is one step from
      the starting row, clamped; shift selects the run from the anchor (the stored one while it
      is a row, else the start) to the target; ctrl only moves the active row; a plain step
      selects just the target and makes it the anchor. An empty list drops the stored anchor. */
  function DayKeyNavigate(l: ListSel, size: int, dayAnchor: Option<int>, direction: int, shift: bool, ctrl: bool): (r: (ListSel, Option<int>))
    ensures size <= 0 ==> r == (l, None)
    ensures size > 0 ==> r.0.active == Clamp(ListStart(l, size, dayAnchor) + direction, size)
    ensures size > 0 && shift ==> IsRow(r.1, size) && r.0.selected == Span(r.1.value, r.0.active) && r.0.anchor == r.1.value
    ensures size > 0 && shift && IsRow(dayAnchor, size) ==> r.1 == dayAnchor
    ensures size > 0 && !shift && ctrl ==> r == (l.(active := r.0.active), dayAnchor)
    ensures size > 0 && !shift && !ctrl ==> r.0.selected == {r.0.active} && r.0.anchor == r.0.active && r.1 == Some(r.0.active)
  {
    if size <= 0 then (l, None)
    else
      var start := ListStart(l, size, dayAnchor);
      var target := Clamp(start + direction, size);
      if shift then
        var anchor := if IsRow(dayAnchor, size) then dayAnchor.value else if 0 <= start < size then start else target;
        (ListSel(Span(anchor, target), anchor, target), Some(anchor))
      else if ctrl then (l.(active := target), dayAnchor)
      else (ListSel({target}, target, target), Some(target))
  }

  /** `_clear_other_day_selections`: every shown day list except `keep` loses its selection. */
  function ClearOthers(lists: map<DateKey, ListSel>, keep: Option<DateKey>): (r: map<DateKey, ListSel>)
    ensures r.Keys == lists.Keys
    ensures forall k :: k in r ==> r[k] == (if keep == Some(k) then lists[k] else lists[k].(selected := {}))
  {
    map k | k in lists :: if keep == Some(k) then lists[k] else lists[k].(selected := {})
  }

  /** The positions of a sorted selection are exactly the selected rows, when every selected
      position is a row. */
  lemma {:induction false} SortedIndicesElems(s: set<int>, n: nat)
    requires RowsIn(s, n)
    ensures Elems(SortedIndices(s, n)) == s
  {
    var r := SortedIndices(s, n);
    forall x | x in s ensures x in Elems(r) {
      assert x in r;
    }
  }

  /** A step that stays inside the rows moves the focus by exactly one row; the tree never moves
      past its first or last row. */
  lemma NavigateTreeSteps(t: TreeSel, n: int, direction: int, shift: bool)
    requires n > 0 && IsRow(t.focus, n)
    ensures 0 <= t.focus.value + direction < n ==> NavigateTree(t, n, direction, shift).focus == Some(t.focus.value + direction)
    ensures t.focus.value == n - 1 && direction > 0 ==> NavigateTree(t, n, direction, shift).focus == t.focus
    ensures t.focus.value == 0 && direction < 0 ==> NavigateTree(t, n, direction, shift).focus == t.focus
  {
  }

  /** A ctrl-click on a day list row twice leaves its selection as it was. */
  lemma {:induction false} DayCtrlPressTwice(l: ListSel, size: int, dayAnchor: Option<int>, row: int)
    requires 0 <= row < size
    ensures var (l1, a1, _) := DayPress(l, size, dayAnchor, row, true, true, false);
            DayPress(l1, size, a1, row, true, true, false).0.selected == l.selected
  {
    var (l1, a1, _) := DayPress(l, size, dayAnchor, row, true, true, false);
    var l2 := DayPress(l1, size, a1, row, true, true, false).0;
    assert forall i :: i in l2.selected <==> i in l.selected;
  }
}
