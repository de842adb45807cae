/** A drop of orders onto a calendar day (`_handle_calendar_drop`): reading the payload, choosing
    which source rows leave the source day, appending the dropped orders that the target day
    lacks, moving the list-box selections along, and the undo snapshot of the changed days. */
module Drop {
  import opened Core
  import opened History
  import opened Store

  // ----- the payload -----

  /** The payload dict of a drop, as the release handlers build it. `sourceDateKey` is `None`
      when the payload has no `source_date_key` member; absent `source_indices` and
      `source_orders` members are empty sequences (they are treated as empty). */
  datatype DropPayload = DropPayload(
    dateKey: seq<int>,
    orders: seq<seq<string>>,
    sourceKind: Option<string>,
    sourceDateKey: Option<seq<int>>,
    sourceIndices: seq<int>,
    sourceOrders: seq<seq<string>>)

  /** What the handler works with once the payload is accepted. */
  datatype DropRequest = DropRequest(
    key: DateKey,
    orders: seq<Assignment>,
    clearTree: bool,
    source: Option<DateKey>,
    deselect: bool,
    sourceOrders: seq<Assignment>,
    hints: seq<int>)

  function NormalizeOrders(raw: seq<seq<string>>): (r: seq<Assignment>)
    ensures |r| == |raw|
  {
    seq(|raw|, i requires 0 <= i < |raw| => NormalizeAssignment(raw[i]))
  }

  /** The checks and normalisation at the top of `_handle_calendar_drop`: a key of three parts
      and at least one order, or the drop is ignored. */
  function ReadPayload(p: DropPayload): (r: Option<DropRequest>)
    ensures r.None? <==> |p.dateKey| != 3 || p.orders == []
    ensures r.Some? ==> r.value.orders != [] && r.value.sourceOrders != []
    ensures r.Some? ==> r.value.key == DateKey(p.dateKey[0], p.dateKey[1], p.dateKey[2])
    ensures r.Some? && r.value.deselect ==> r.value.source.Some? && r.value.source.value != r.value.key
    ensures r.Some? && r.value.source.Some? ==> p.sourceDateKey.Some?
  {
    if |p.dateKey| != 3 || p.orders == [] then None
    else
      var key := DateKey(p.dateKey[0], p.dateKey[1], p.dateKey[2]);
      var orders := NormalizeOrders(p.orders);
      var clearTree := p.sourceKind == Some("tree") || (p.sourceKind.None? && p.sourceDateKey.None?);
      var source := if p.sourceDateKey.Some? then NormalizeDateKey(p.sourceDateKey.value) else None;
      var deselect := p.sourceKind == Some("calendar") && source.Some? && source.value != key;
      var given := NormalizeOrders(p.sourceOrders);
      Some(DropRequest(key, orders, clearTree, source, deselect, if given != [] then given else orders, p.sourceIndices))
  }

  // ----- choosing the source rows to remove -----

  /** The first position not yet used that holds `order`. */
  function FirstMatch(list: seq<Assignment>, used: set<int>, order: Assignment): (r: Option<int>)
    ensures r.Some? ==> 0 <= r.value < |list| && r.value !in used && list[r.value] == order
    ensures r.Some? ==> forall i :: 0 <= i < r.value ==> i in used || list[i] != order
    ensures r.None? ==> forall i :: 0 <= i < |list| ==> i in used || list[i] != order
  {
    if list == [] then None
    else
      var p := FirstMatch(list[..|list| - 1], used, order);
      if p.Some? then p
      else if |list| - 1 !in used && list[|list| - 1] == order then Some(|list| - 1)
      else None
  }

  /** A first match found in a prefix is the first match in the whole list. */
  lemma FirstMatchPrefix(list: seq<Assignment>, used: set<int>, order: Assignment, j: int)
    requires 0 <= j <= |list| && FirstMatch(list[..j], used, order).Some?
    ensures FirstMatch(list, used, order) == FirstMatch(list[..j], used, order)
  {
    var a := FirstMatch(list[..j], used, order).value;
    assert list[..j][a] == list[a];
    assert forall i :: 0 <= i < a ==> list[..j][i] == list[i];
  }

  /** The inner search loop: the first unused position whose order is `order`. */
  method FindFirstUnused(list: seq<Assignment>, used: set<int>, order: Assignment) returns (r: Option<int>)
    ensures r == FirstMatch(list, used, order)
  {
    var idx := 0;
    while idx < |list|
      invariant 0 <= idx <= |list|
      invariant FirstMatch(list[..idx], used, order) == None
    {
      assert list[..idx + 1][..idx] == list[..idx];
      if idx !in used && list[idx] == order {
        FirstMatchPrefix(list, used, order, idx + 1);
        return Some(idx);
      }
      idx := idx + 1;
    }
    assert list[..|list|] == list;
    return None;
  }

  /** The position removed for one dragged order: its index hint when that is in range,
      unused and holds the order; otherwise the first unused position holding it. */
  function ChooseIndex(list: seq<Assignment>, used: set<int>, order: Assignment, hint: Option<int>): (r: Option<int>)
    ensures r.Some? ==> 0 <= r.value < |list| && r.value !in used && list[r.value] == order
    ensures hint.Some? && 0 <= hint.value < |list| && hint.value !in used && list[hint.value] == order ==> r == hint
    ensures !(hint.Some? && 0 <= hint.value < |list| && hint.value !in used && list[hint.value] == order) ==>
              r == FirstMatch(list, used, order)
    ensures !(hint.Some? && 0 <= hint.value < |list| && hint.value !in used && list[hint.value] == order) && r.Some? ==>
              forall i :: 0 <= i < r.value ==> i in used || list[i] != order
    ensures r.None? ==> forall i :: 0 <= i < |list| ==> i in used || list[i] != order
  {
    if hint.Some? && 0 <= hint.value < |list| && hint.value !in used && list[hint.value] == order then hint
    else FirstMatch(list, used, order)
  }

  function HintAt(hints: seq<int>, p: int): Option<int> {
    if 0 <= p < |hints| then Some(hints[p]) else None
  }

  predicate Distinct(s: seq<int>) {
    forall i, j :: 0 <= i < j < |s| ==> s[i] != s[j]
  }

  /** The positions removed from the source list, one per dragged source order at most, in the
      order of the dragged orders. */
  function RemovalIndices(list: seq<Assignment>, orders: seq<Assignment>, hints: seq<int>): (r: seq<int>)
  {
    if orders == [] then []
    else
      var prev := RemovalIndices(list, orders[..|orders| - 1], hints);
      RemovalStep(list, prev, orders[|orders| - 1], HintAt(hints, |orders| - 1))
  }

  /** One round of the removal loop: the chosen position, if any, is recorded. */
  function RemovalStep(list: seq<Assignment>, prev: seq<int>, order: Assignment, hint: Option<int>): seq<int>
  {
    match ChooseIndex(list, Elems(prev), order, hint)
    case Some(i) => prev + [i]
    case None => prev
  }

  /** The outer removal loop of `_handle_calendar_drop`. */
  method FindRemovalIndices(list: seq<Assignment>, orders: seq<Assignment>, hints: seq<int>) returns (removed: seq<int>)
    ensures removed == RemovalIndices(list, orders, hints)
  {
    removed := [];
    var used: set<int> := {};
    var position := 0;
    while position < |orders|
      invariant 0 <= position <= |orders|
      invariant removed == RemovalIndices(list, orders[..position], hints)
      invariant used == Elems(removed)
    {
      var order := orders[position];
      var hint := HintAt(hints, position);
      var removal: Option<int> := None;
      if hint.Some? && 0 <= hint.value < |list| && hint.value !in used {
        if list[hint.value] == order {
          removal := hint;
        }
      }
      if removal.None? {
        removal := FindFirstUnused(list, used, order);
      }
      assert removal == ChooseIndex(list, used, order, hint);
      RemovalIndicesSnoc(list, orders, hints, position);
      ghost var prev := removed;
      if removal.Some? {
        used := used + {removal.value};
        removed := removed + [removal.value];
      }
      assert removed == RemovalStep(list, prev, order, hint);
      position := position + 1;
    }
    assert orders[..|orders|] == orders;
  }

  /** At most one row per dragged order, no row twice, each inside the list and holding one
      of the dragged orders. */
  lemma {:induction false} RemovalIndicesValid(list: seq<Assignment>, orders: seq<Assignment>, hints: seq<int>)
    ensures var r := RemovalIndices(list, orders, hints);
            && |r| <= |orders| && Distinct(r)
            && forall i :: 0 <= i < |r| ==> 0 <= r[i] < |list| && list[r[i]] in orders
  {
    if orders != [] {
      var init := orders[..|orders| - 1];
      RemovalIndicesValid(list, init, hints);
      var prev := RemovalIndices(list, init, hints);
      assert forall o :: o in init ==> o in orders;
      var c := ChooseIndex(list, Elems(prev), orders[|orders| - 1], HintAt(hints, |orders| - 1));
      if c.Some? {
        assert c.value !in prev;
      }
    }
  }

  lemma RemovalIndicesSnoc(list: seq<Assignment>, orders: seq<Assignment>, hints: seq<int>, p: int)
    requires 0 <= p < |orders|
    ensures RemovalIndices(list, orders[..p + 1], hints)
            == RemovalStep(list, RemovalIndices(list, orders[..p], hints), orders[p], HintAt(hints, p))
  {
    assert orders[..p + 1][..p] == orders[..p];
  }

  /** Hints that point exactly at the dragged orders, as a drag from a day list supplies them,
      are the rows removed. */
  lemma {:induction false} ExactHintsAreRemoved(list: seq<Assignment>, orders: seq<Assignment>, hints: seq<int>)
    requires |hints| >= |orders| && Distinct(hints)
    requires forall p :: 0 <= p < |orders| ==> 0 <= hints[p] < |list| && list[hints[p]] == orders[p]
    ensures RemovalIndices(list, orders, hints) == hints[..|orders|]
  {
    if orders != [] {
      ExactHintsAreRemoved(list, orders[..|orders| - 1], hints);
      FreshHint(hints, |orders|);
      ExactHintStep(list, orders, hints);
    }
  }

  /** The step of `ExactHintsAreRemoved`: the hint of the last order is taken. */
  lemma ExactHintStep(list: seq<Assignment>, orders: seq<Assignment>, hints: seq<int>)
    requires orders != [] && |hints| >= |orders|
    requires hints[|orders| - 1] !in Elems(hints[..|orders| - 1])
    requires 0 <= hints[|orders| - 1] < |list| && list[hints[|orders| - 1]] == orders[|orders| - 1]
    requires RemovalIndices(list, orders[..|orders| - 1], hints) == hints[..|orders| - 1]
    ensures RemovalIndices(list, orders, hints) == hints[..|orders|]
  {
    var n := |orders|;
    var prev := hints[..n - 1];
    assert ChooseIndex(list, Elems(prev), orders[n - 1], HintAt(hints, n - 1)) == Some(hints[n - 1]);
    assert RemovalIndices(list, orders, hints) == prev + [hints[n - 1]];
    TakeSnoc(hints, n);
  }

  lemma FreshHint(hints: seq<int>, n: int)
    requires 0 < n <= |hints| && Distinct(hints)
    ensures hints[n - 1] !in Elems(hints[..n - 1])
  {
  }

  lemma TakeSnoc(s: seq<int>, n: int)
    requires 0 < n <= |s|
    ensures s[..n] == s[..n - 1] + [s[n - 1]]
  {
  }

  // ----- appending to the target -----

  /** `list.index(x)`: the first position holding `x`. */
  function IndexOf(list: seq<Assignment>, x: Assignment): (i: nat)
    requires x in list
    ensures i < |list| && list[i] == x && forall j :: 0 <= j < i ==> list[j] != x
  {
    if list[0] == x then 0 else 1 + IndexOf(list[1..], x)
  }

  /** The target loop: each dropped order already on the list gives its first position; any
      other is appended. Returns the new list, the position of each dropped order, and whether
      anything was appended. */
  function Appended(target: seq<Assignment>, orders: seq<Assignment>): (r: (seq<Assignment>, seq<int>, bool))
  {
    if orders == [] then (target, [], false)
    else AppendStep(Appended(target, orders[..|orders| - 1]), orders[|orders| - 1])
  }

  /** The new target list starts with the old one and adds only dropped orders; each dropped
      order sits at the row reported for it; the flag says whether the list grew. */
  lemma {:induction false} AppendedValid(target: seq<Assignment>, orders: seq<Assignment>)
    ensures var r := Appended(target, orders);
            && |r.1| == |orders|
            && |r.0| >= |target| && r.0[..|target|] == target
            && (forall p :: 0 <= p < |orders| ==> 0 <= r.1[p] < |r.0| && r.0[r.1[p]] == orders[p])
            && (r.2 <==> |r.0| > |target|)
            && (forall a :: a in r.0 <==> a in target || a in orders)
  {
    if orders != [] {
      var init := orders[..|orders| - 1];
      var order := orders[|orders| - 1];
      AppendedValid(target, init);
      var prev := Appended(target, init);
      var r := AppendStep(prev, order);
      assert forall a :: a in orders <==> a in init || a == order by {
        assert orders == init + [order];
      }
      assert r.0[..|prev.0|] == prev.0;
      assert r.0[..|target|] == prev.0[..|target|];
      forall p | 0 <= p < |orders| ensures 0 <= r.1[p] < |r.0| && r.0[r.1[p]] == orders[p] {
        if p < |init| {
          assert r.1[p] == prev.1[p] && orders[p] == init[p];
          assert r.0[prev.1[p]] == prev.0[prev.1[p]];
        }
      }
    }
  }

  /** One round of the target loop. */
  function AppendStep(acc: (seq<Assignment>, seq<int>, bool), order: Assignment): (r: (seq<Assignment>, seq<int>, bool))
  {
    var (list, indices, added) := acc;
    if order in list then (list, indices + [IndexOf(list, order)], added)
    else (list + [order], indices + [|list|], true)
  }

  lemma AppendedSnoc(target: seq<Assignment>, orders: seq<Assignment>, i: int)
    requires 0 <= i < |orders|
    ensures Appended(target, orders[..i + 1]) == AppendStep(Appended(target, orders[..i]), orders[i])
  {
    assert orders[..i + 1][..i] == orders[..i];
  }

  predicate NoDuplicates(list: seq<Assignment>) {
    forall i, j :: 0 <= i < j < |list| ==> list[i] != list[j]
  }

  /** Appending the missing orders never creates a duplicate. */
  lemma {:induction false} AppendedNoDuplicates(target: seq<Assignment>, orders: seq<Assignment>)
    requires NoDuplicates(target)
    ensures NoDuplicates(Appended(target, orders).0)
  {
    if orders != [] {
      AppendedNoDuplicates(target, orders[..|orders| - 1]);
      AppendedValid(target, orders[..|orders| - 1]);
    }
  }

  /** The target loop as the source writes it. */
  method AppendMissing(target: seq<Assignment>, orders: seq<Assignment>) returns (list: seq<Assignment>, indices: seq<int>, added: bool)
    ensures (list, indices, added) == Appended(target, orders)
  {
    list, indices, added := target, [], false;
    var i := 0;
    while i < |orders|
      invariant 0 <= i <= |orders|
      invariant (list, indices, added) == Appended(target, orders[..i])
    {
      var order := orders[i];
      AppendedSnoc(target, orders, i);
      var index;
      if order in list {
        index := IndexOf(list, order);
      } else {
        list := list + [order];
        added := true;
        index := |list| - 1;
      }
      indices := indices + [index];
      i := i + 1;
    }
    assert orders[..|orders|] == orders;
  }

  // ----- moving the selection along -----

  /** `sum(1 for value in removed if value < index)`. */
  function CountBelow(removed: seq<int>, index: int): nat {
    if removed == [] then 0
    else CountBelow(removed[..|removed| - 1], index) + (if removed[|removed| - 1] < index then 1 else 0)
  }

  /** `adjust_selection`: removed rows drop out of the selection and the others move up by the
      number of removed rows above them. */
  function Adjusted(selection: seq<int>, removed: seq<int>): seq<int> {
    if selection == [] || removed == [] then selection else AdjustEach(selection, removed)
  }

  function AdjustEach(selection: seq<int>, removed: seq<int>): (r: seq<int>)
  {
    if selection == [] then []
    else
      var prev := AdjustEach(selection[..|selection| - 1], removed);
      var index := selection[|selection| - 1];
      if index in removed then prev
      else
        var shifted := index - CountBelow(removed, index);
        if shifted >= 0 then prev + [shifted] else prev
  }

  /** `adjust_selection` with its counting loop (`removed` is already sorted). */
  method AdjustSelection(selection: seq<int>, removed: seq<int>) returns (adjusted: seq<int>)
    ensures adjusted == Adjusted(selection, removed)
  {
    if selection == [] || removed == [] {
      return selection;
    }
    adjusted := [];
    var i := 0;
    while i < |selection|
      invariant 0 <= i <= |selection|
      invariant adjusted == AdjustEach(selection[..i], removed)
    {
      var index := selection[i];
      AdjustEachSnoc(selection, removed, i);
      if index !in removed {
        var shift := CountRemovedBelow(removed, index);
        var newIndex := index - shift;
        if newIndex >= 0 {
          adjusted := adjusted + [newIndex];
        }
      }
      i := i + 1;
    }
    assert selection[..|selection|] == selection;
  }

  /** Every adjusted row comes from a selected row that was not removed, moved up by the
      number of removed rows above it; `p` is that selected row's place in the selection. */
  lemma {:induction false} AdjustEachOrigin(selection: seq<int>, removed: seq<int>, q: int) returns (p: int)
    requires 0 <= q < |AdjustEach(selection, removed)|
    ensures 0 <= p < |selection| && selection[p] !in removed
    ensures AdjustEach(selection, removed)[q] == selection[p] - CountBelow(removed, selection[p])
  {
    var init := selection[..|selection| - 1];
    var prev := AdjustEach(init, removed);
    if q < |prev| {
      p := AdjustEachOrigin(init, removed, q);
      assert init[p] == selection[p];
    } else {
      p := |selection| - 1;
    }
  }

  lemma AdjustEachSnoc(selection: seq<int>, removed: seq<int>, i: int)
    requires 0 <= i < |selection|
    ensures AdjustEach(selection[..i + 1], removed)
            == AdjustEach(selection[..i], removed)
               + (if selection[i] in removed || selection[i] - CountBelow(removed, selection[i]) < 0 then []
                  else [selection[i] - CountBelow(removed, selection[i])])
  {
    assert selection[..i + 1][..i] == selection[..i];
  }

  /** The counting generator of `adjust_selection`. */
  method CountRemovedBelow(removed: seq<int>, index: int) returns (shift: nat)
    ensures shift == CountBelow(removed, index)
  {
    shift := 0;
    var j := 0;
    while j < |removed|
      invariant 0 <= j <= |removed|
      invariant shift == CountBelow(removed[..j], index)
    {
      assert removed[..j + 1][..j] == removed[..j];
      if removed[j] < index {
        shift := shift + 1;
      }
      j := j + 1;
    }
    assert removed[..|removed|] == removed;
  }

  /** How many positions below `n` a set holds. */
  function Below(s: set<int>, n: int): nat {
    if n <= 0 then 0 else Below(s, n - 1) + (if n - 1 in s then 1 else 0)
  }

  lemma {:induction false} KeepLength(list: seq<Assignment>, s: set<int>)
    ensures |Keep(list, s)| == |list| - Below(s, |list|)
  {
    if list != [] {
      KeepLength(list[..|list| - 1], s);
    }
  }

  /** A kept row moves up by the number of taken-out rows above it. */
  lemma {:induction false} KeepShift(list: seq<Assignment>, s: set<int>, i: int)
    requires 0 <= i < |list| && i !in s
    ensures 0 <= i - Below(s, i) < |Keep(list, s)| && Keep(list, s)[i - Below(s, i)] == list[i]
  {
    var n := |list|;
    var init := list[..n - 1];
    KeepLength(init, s);
    if i < n - 1 {
      KeepShift(init, s, i);
    }
  }

  lemma {:induction false} BelowAdd(s: set<int>, v: int, n: int)
    requires v !in s
    ensures Below(s + {v}, n) == Below(s, n) + (if 0 <= v < n then 1 else 0)
  {
    if n > 0 {
      BelowAdd(s, v, n - 1);
    }
  }

  lemma {:induction false} BelowEmpty(n: int)
    ensures Below({}, n) == 0
  {
    if n > 0 {
      BelowEmpty(n - 1);
    }
  }

  /** For distinct non-negative removed rows, counting the removed values below an index is
      counting the set's positions below it. */
  lemma {:induction false} CountBelowIsBelow(removed: seq<int>, index: int)
    requires Distinct(removed) && forall i :: 0 <= i < |removed| ==> removed[i] >= 0
    ensures CountBelow(removed, index) == Below(Elems(removed), index)
  {
    if removed == [] {
      assert Elems(removed) == {};
      BelowEmpty(index);
    } else {
      var init := removed[..|removed| - 1];
      var v := removed[|removed| - 1];
      CountBelowIsBelow(init, index);
      assert Elems(removed) == Elems(init) + {v} by {
        assert removed == init + [v];
      }
      assert v !in Elems(init);
      BelowAdd(Elems(init), v, index);
    }
  }

  /** The adjusted selection selects the same orders as before: row `q` of the adjusted
      selection, in the list after removal, holds the order of the selected row `p`, which was
      not removed. */
  lemma AdjustedSelectsSameOrders(list: seq<Assignment>, removed: seq<int>, selection: seq<int>, q: int) returns (p: int)
    requires Distinct(removed) && forall i :: 0 <= i < |removed| ==> 0 <= removed[i] < |list|
    requires forall i :: 0 <= i < |selection| ==> 0 <= selection[i] < |list|
    requires 0 <= q < |Adjusted(selection, removed)|
    ensures 0 <= p < |selection| && selection[p] !in removed
    ensures 0 <= Adjusted(selection, removed)[q] < |Keep(list, Elems(removed))|
    ensures Keep(list, Elems(removed))[Adjusted(selection, removed)[q]] == list[selection[p]]
  {
    if removed == [] {
      KeepNone(list, Elems(removed));
      p := q;
    } else {
      p := AdjustEachOrigin(selection, removed, q);
      CountBelowIsBelow(removed, selection[p]);
      KeepShift(list, Elems(removed), selection[p]);
    }
  }

  /** The "append if not already there" loops that build the target's new selection. */
  function AddNew(acc: seq<int>, items: seq<int>): (r: seq<int>)
    ensures forall x :: x in r <==> x in acc || x in items
    ensures Distinct(acc) ==> Distinct(r)
  {
    if items == [] then acc
    else
      var prev := AddNew(acc, items[..|items| - 1]);
      var x := items[|items| - 1];
      assert forall y :: y in items <==> y in items[..|items| - 1] || y == x by {
        assert items == items[..|items| - 1] + [x];
      }
      if x in prev then prev else prev + [x]
  }

  method AppendNew(acc: seq<int>, items: seq<int>) returns (r: seq<int>)
    ensures r == AddNew(acc, items)
  {
    r := acc;
    var i := 0;
    while i < |items|
      invariant 0 <= i <= |items|
      invariant r == AddNew(acc, items[..i])
    {
      assert items[..i + 1][..i] == items[..i];
      if items[i] !in r {
        r := r + [items[i]];
      }
      i := i + 1;
    }
    assert items[..|items|] == items;
  }

  /** The target's new selection: its previous selection (moved along on a same-day drop)
      followed by the rows of the dropped orders, each once; nothing for a move to another
      day from a day list. */
  function CombinedSelection(before: seq<int>, removedSorted: seq<int>, targetIndices: seq<int>, sameDay: bool, deselect: bool): (r: seq<int>)
    ensures Distinct(r)
    ensures !deselect ==> forall p :: 0 <= p < |targetIndices| ==> targetIndices[p] in r
    ensures deselect ==> r == []
  {
    if deselect then []
    else AddNew(AddNew([], if sameDay then Adjusted(before, removedSorted) else before), targetIndices)
  }

  /** `[idx for idx in indices if 0 <= idx < size]`. */
  function InRange(indices: seq<int>, size: int): (r: seq<int>)
    ensures forall i :: 0 <= i < |r| ==> 0 <= r[i] < size && r[i] in indices
    ensures forall x :: x in indices && 0 <= x < size ==> x in r
  {
    if indices == [] then []
    else
      var prev := InRange(indices[..|indices| - 1], size);
      var x := indices[|indices| - 1];
      assert forall y :: y in indices <==> y in indices[..|indices| - 1] || y == x by {
        assert indices == indices[..|indices| - 1] + [x];
      }
      if 0 <= x < size then prev + [x] else prev
  }

  // ----- the whole drop -----

  /** What the drop changes in the store. */
  datatype DropEffect = DropEffect(
    assignments: Assignments,
    added: bool,
    removedFromSource: bool,
    removedSorted: seq<int>,
    targetIndices: seq<int>,
    undoKeys: seq<DateKey>)

  /** The store after an accepted drop: rows leave the source day (the target itself on a
      same-day drop), then the target gets the dropped orders it lacks; the undo snapshot will
      cover the target when it gained an order or lost rows, and the source when it lost rows. */
  function ApplyDrop(m: Assignments, rq: DropRequest): (e: DropEffect)
  {
    var key := rq.key;
    var sameDay := rq.source == Some(key);
    var sourceList := if rq.source.Some? then DayOrders(m, rq.source.value) else [];
    var removed := if rq.source.Some? && sourceList != [] then RemovalIndices(sourceList, rq.sourceOrders, rq.hints) else [];
    var removedFrom := removed != [];
    var sourceAfter := Keep(sourceList, Elems(removed));
    var m1 := if removedFrom && !sameDay then SetDay(m, rq.source.value, sourceAfter) else m;
    var base := if removedFrom && sameDay then sourceAfter else DayOrders(m, key);
    var (target, indices, added) := Appended(base, rq.orders);
    DropEffect(
      m1[key := target], added, removedFrom, SortedIndices(Elems(removed), |sourceList|), indices,
      (if added || (removedFrom && sameDay) then [key] else []) + (if removedFrom && !sameDay then [rq.source.value] else []))
  }

  /** The history after an accepted drop: a snapshot of the undo days, taken before the change,
      is pushed when there is any. */
  function DropHistory(h: History, rq: DropRequest): (r: History)
  {
    var e := ApplyDrop(h.state.assignments, rq);
    if e.undoKeys == [] then WithAssignments(h, e.assignments)
    else WithAssignments(Record(h, e.undoKeys), e.assignments)
  }

  /** Every dropped order is on the target day afterwards, at the row the drop reports for it;
      the target day keeps its earlier orders (minus the rows moved on a same-day drop) and gains
      nothing else; no duplicate is created; the source day loses exactly the chosen rows. */
  lemma {:induction false} DropContents(m: Assignments, rq: DropRequest)
    requires rq.orders != [] && rq.sourceOrders != []
    ensures var e := ApplyDrop(m, rq);
            var target := DayOrders(e.assignments, rq.key);
            var sameDay := rq.source == Some(rq.key);
            var before := DayOrders(m, rq.key);
            && |e.targetIndices| == |rq.orders|
            && (forall p :: 0 <= p < |rq.orders| ==> 0 <= e.targetIndices[p] < |target| && target[e.targetIndices[p]] == rq.orders[p])
            && (!(sameDay && e.removedFromSource) ==> |target| >= |before| && target[..|before|] == before)
            && (forall a :: a in target ==> a in before || a in rq.orders)
            && (!sameDay ==> (forall a :: a in before ==> a in target))
            && (NoDuplicates(before) ==> NoDuplicates(target))
            && (rq.source.Some? && !sameDay ==> DayOrders(e.assignments, rq.source.value) == Keep(DayOrders(m, rq.source.value), Elems(RemovalIndicesOf(m, rq))))
  {
    var key := rq.key;
    var sameDay := rq.source == Some(key);
    var sourceList := if rq.source.Some? then DayOrders(m, rq.source.value) else [];
    var removed := RemovalIndicesOf(m, rq);
    var sourceAfter := Keep(sourceList, Elems(removed));
    var before := DayOrders(m, key);
    var base := if removed != [] && sameDay then sourceAfter else before;
    var e := ApplyDrop(m, rq);
    AppendedValid(base, rq.orders);
    assert DayOrders(e.assignments, key) == Appended(base, rq.orders).0;
    if base == sourceAfter && sameDay && removed != [] {
      assert forall a :: a in sourceAfter ==> a in before by { KeepIn(before, Elems(removed)); }
      if NoDuplicates(before) { KeepNoDuplicates(before, Elems(removed)); }
    }
    if NoDuplicates(before) { AppendedNoDuplicates(base, rq.orders); }
    if rq.source.Some? && !sameDay {
      if removed == [] {
        KeepNone(sourceList, Elems(removed));
      }
    }
  }

  /** The rows the drop takes out of the source list. */
  function RemovalIndicesOf(m: Assignments, rq: DropRequest): seq<int> {
    var sourceList := if rq.source.Some? then DayOrders(m, rq.source.value) else [];
    if rq.source.Some? && sourceList != [] then RemovalIndices(sourceList, rq.sourceOrders, rq.hints) else []
  }

  lemma {:induction false} KeepIn(list: seq<Assignment>, s: set<int>)
    ensures forall a :: a in Keep(list, s) ==> a in list
  {
    if list != [] {
      KeepIn(list[..|list| - 1], s);
    }
  }

  lemma {:induction false} KeepNoDuplicates(list: seq<Assignment>, s: set<int>)
    requires NoDuplicates(list)
    ensures NoDuplicates(Keep(list, s))
  {
    if list != [] {
      var init := list[..|list| - 1];
      KeepNoDuplicates(init, s);
      KeepIn(init, s);
      assert list[|list| - 1] !in init;
    }
  }

  /** Only the target and the source day change, the store keeps no empty day, and every day
      that changed is one the undo snapshot covers. */
  lemma DropFrame(m: Assignments, rq: DropRequest)
    requires NoEmptyDays(m) && rq.orders != []
    ensures var e := ApplyDrop(m, rq);
            && NoEmptyDays(e.assignments)
            && (forall i, j :: 0 <= i < j < |e.undoKeys| ==> e.undoKeys[i] != e.undoKeys[j])
            && (forall k :: k !in e.undoKeys ==> (k in e.assignments <==> k in m) && (k in m ==> e.assignments[k] == m[k]))
            && (e.undoKeys == [] <==> !e.added && !e.removedFromSource)
  {
    DropKeepsDays(m, rq);
    DropUndoKeys(m, rq);
  }

  /** The target day is never left empty, so the store keeps no empty day. */
  lemma DropKeepsDays(m: Assignments, rq: DropRequest)
    requires NoEmptyDays(m) && rq.orders != []
    ensures NoEmptyDays(ApplyDrop(m, rq).assignments)
  {
    var key := rq.key;
    var removed := RemovalIndicesOf(m, rq);
    var sourceList := if rq.source.Some? then DayOrders(m, rq.source.value) else [];
    var base := if removed != [] && rq.source == Some(key) then Keep(sourceList, Elems(removed)) else DayOrders(m, key);
    var app := Appended(base, rq.orders);
    FirstDroppedIn(base, rq.orders);
    var m1 := if removed != [] && rq.source != Some(key) then SetDay(m, rq.source.value, Keep(sourceList, Elems(removed))) else m;
    assert NoEmptyDays(m1);
    assert ApplyDrop(m, rq).assignments == m1[key := app.0];
  }

  /** The undo days are distinct, cover every day that changed, and are none exactly when the
      drop neither added nor removed anything. */
  lemma DropUndoKeys(m: Assignments, rq: DropRequest)
    requires NoEmptyDays(m) && rq.orders != []
    ensures var e := ApplyDrop(m, rq);
            && (forall i, j :: 0 <= i < j < |e.undoKeys| ==> e.undoKeys[i] != e.undoKeys[j])
            && (forall k :: k !in e.undoKeys ==> (k in e.assignments <==> k in m) && (k in m ==> e.assignments[k] == m[k]))
            && (e.undoKeys == [] <==> !e.added && !e.removedFromSource)
  {
    var key := rq.key;
    var removed := RemovalIndicesOf(m, rq);
    var sourceList := if rq.source.Some? then DayOrders(m, rq.source.value) else [];
    var before := DayOrders(m, key);
    var base := if removed != [] && rq.source == Some(key) then Keep(sourceList, Elems(removed)) else before;
    var app := Appended(base, rq.orders);
    FirstDroppedIn(base, rq.orders);
    AppendedNothing(base, rq.orders);
  }

  /** The first dropped order is on the target list afterwards. */
  lemma FirstDroppedIn(target: seq<Assignment>, orders: seq<Assignment>)
    requires orders != []
    ensures orders[0] in Appended(target, orders).0
  {
    AppendedValid(target, orders);
    var r := Appended(target, orders);
    assert r.0[r.1[0]] == orders[0];
  }

  /** When nothing was appended the target list is unchanged. */
  lemma AppendedNothing(target: seq<Assignment>, orders: seq<Assignment>)
    ensures !Appended(target, orders).2 ==> Appended(target, orders).0 == target
  {
    AppendedValid(target, orders);
    var r := Appended(target, orders);
    if !r.2 {
      assert r.0 == r.0[..|target|];
    }
  }

  /** An accepted drop keeps the invariant, and undo then gives back the store from before
      the drop. */
  lemma DropUndo(h: History, rq: DropRequest, dateLabel: DateKey -> string)
    requires Valid(h) && rq.orders != []
    requires ApplyDrop(h.state.assignments, rq).undoKeys != []
    ensures Valid(DropHistory(h, rq))
    ensures Undo(DropHistory(h, rq), dateLabel).history.state == h.state
  {
    var e := ApplyDrop(h.state.assignments, rq);
    DropFrame(h.state.assignments, rq);
    RecordThenChange(h, e.undoKeys, e.assignments, dateLabel);
  }

  /** A drop that neither added nor removed anything leaves the store and the history as they
      were. */
  lemma DropNoChange(h: History, rq: DropRequest)
    requires Valid(h) && rq.orders != []
    requires ApplyDrop(h.state.assignments, rq).undoKeys == []
    ensures DropHistory(h, rq) == h
  {
    var m := h.state.assignments;
    DropFrame(m, rq);
    var e := ApplyDrop(m, rq);
    UnchangedStore(m, e.assignments, e.undoKeys);
  }

  /** A store that differs from `m` only on the days of an empty list is `m`. */
  lemma UnchangedStore(m: Assignments, m1: Assignments, keys: seq<DateKey>)
    requires keys == []
    requires forall k :: k !in keys ==> (k in m1 <==> k in m) && (k in m ==> m1[k] == m[k])
    ensures m1 == m
  {
    assert forall k :: k in m1 <==> k in m;
  }

  /** Every accepted drop keeps the history invariant. */
  lemma DropHistoryValid(h: History, rq: DropRequest, dateLabel: DateKey -> string)
    requires Valid(h) && rq.orders != []
    ensures Valid(DropHistory(h, rq))
  {
    if ApplyDrop(h.state.assignments, rq).undoKeys != [] {
      DropUndo(h, rq, dateLabel);
    } else {
      DropNoChange(h, rq);
    }
  }

  /** A calendar drag supplies the selected rows as hints and their orders as the source
      orders; a move to another day then takes out exactly those rows. */
  lemma DragMoveRemovesSelection(m: Assignments, rq: DropRequest)
    requires rq.source.Some? && rq.source.value != rq.key
    requires var list := DayOrders(m, rq.source.value);
             && |rq.hints| == |rq.sourceOrders| && Distinct(rq.hints) && list != []
             && forall p :: 0 <= p < |rq.sourceOrders| ==> 0 <= rq.hints[p] < |list| && list[rq.hints[p]] == rq.sourceOrders[p]
    ensures RemovalIndicesOf(m, rq) == rq.hints
  {
    ExactHintsAreRemoved(DayOrders(m, rq.source.value), rq.sourceOrders, rq.hints);
    assert rq.hints[..|rq.sourceOrders|] == rq.hints;
  }
}
