/** The status texts and labels the engine builds, and the order filter of the orders tree.
    Date labels come from `_format_date_label`, which is outside the model: it is passed in as a
    function. */
module Messages {
  import opened Core
  import opened Text

  /** `_format_assignment_label`: "order - company", or whichever of the two is present, or a
      placeholder; both parts are stripped first. */
  function FormatAssignmentLabel(a: Assignment): string
  {
    LabelOf(Strip(a.orderNumber), Strip(a.company))
  }

  function LabelOf(o: string, c: string): string {
    if o != [] && c != [] then o + " - " + c
    else if o != [] then o
    else if c != [] then c
    else "Unnamed order"
  }

  lemma ContainsLeft(a: string, b: string)
    ensures Contains(a + b, a)
  {
    assert (a + b)[0..|a|] == a;
    assert OccursAt(a + b, a, 0);
  }

  lemma ContainsRight(a: string, b: string)
    ensures Contains(a + b, b)
  {
    assert (a + b)[|a|..|a| + |b|] == b;
    assert OccursAt(a + b, b, |a|);
  }

  /** A label is never empty, and it shows both the (stripped) order number and company. */
  lemma LabelShowsBoth(o: string, c: string)
    ensures LabelOf(o, c) != []
    ensures Contains(LabelOf(o, c), o) && Contains(LabelOf(o, c), c)
  {
    var r := LabelOf(o, c);
    if o != [] && c != [] {
      ContainsLeft(o, " - " + c);
      assert r == o + (" - " + c);
      ContainsRight(o + " - ", c);
    } else if o != [] {
      ContainsLeft(o, []);
      assert o + [] == o;
      assert OccursAt(r, c, 0);
    } else if c != [] {
      ContainsLeft(c, []);
      assert c + [] == c;
      assert OccursAt(r, o, 0);
    } else {
      assert OccursAt(r, o, 0);
      assert OccursAt(r, c, 0);
    }
  }

  function UpperChar(c: char): char {
    if 'a' <= c <= 'z' then (c as int - 32) as char else c
  }

  /** `s[0].upper() + s[1:]` for a non-empty text. */
  function Capitalize(s: string): (r: string)
    requires s != []
    ensures |r| == |s| && r[1..] == s[1..] && r[0] == UpperChar(s[0])
  {
    [UpperChar(s[0])] + s[1..]
  }

  /** The order phrase of a one-order message: "order", then the order number, then the company
      in parentheses, each only when not blank. It shows both stripped parts, and is the bare
      word when both are blank. */
  function OrderPhrase(a: Assignment): (r: string)
    ensures |r| >= 5 && r[..5] == "order"
    ensures Contains(r, Strip(a.orderNumber)) && Contains(r, Strip(a.company))
    ensures IsBlank(a.orderNumber) && IsBlank(a.company) ==> r == "order"
  {
    PhraseShows(Strip(a.orderNumber), Strip(a.company));
    PhraseOf(Strip(a.orderNumber), Strip(a.company))
  }

  /** The phrase for the stripped parts `o` and `c`: the number follows "order " and the company
      closes the phrase in parentheses. */
  function PhraseOf(o: string, c: string): (r: string)
    ensures |r| >= 5 && r[..5] == "order"
    ensures o != [] ==> |r| >= 6 + |o| && r[5..6 + |o|] == " " + o
    ensures c != [] ==> |r| >= |c| + 8 && r[|r| - |c| - 3..] == " (" + c + ")"
    ensures o == [] && c == [] ==> r == "order"
  {
    var withNumber := "order" + (if o != [] then " " + o else "");
    assert withNumber[..5] == "order";
    assert o != [] ==> withNumber[5..6 + |o|] == " " + o;
    var r := withNumber + (if c != [] then " (" + c + ")" else "");
    assert r[..|withNumber|] == withNumber;
    r
  }

  /** The phrase shows both parts, neither of them at its first character. */
  lemma PhraseShows(o: string, c: string)
    ensures var r := PhraseOf(o, c);
            && (exists j :: 1 <= j && OccursAt(r, o, j))
            && (exists j :: 1 <= j && OccursAt(r, c, j))
  {
    var r := PhraseOf(o, c);
    if o != [] {
      assert (" " + o)[1..1 + |o|] == o;
      ShownInside(r, 5, " " + o, 1, o);
    } else {
      assert OccursAt(r, o, 1);
    }
    if c != [] {
      var w := " (" + c + ")";
      assert w[2..2 + |c|] == c;
      assert r[|r| - |c| - 3..|r| - |c| - 3 + |w|] == w;
      ShownInside(r, |r| - |c| - 3, w, 2, c);
    } else {
      assert OccursAt(r, c, 1);
    }
  }

  /** A text shown inside a part of `r` is shown in `r`. */
  lemma ShownInside(r: string, lo: int, w: string, k: nat, x: string)
    requires 0 <= lo <= |r| - |w| && r[lo..lo + |w|] == w
    requires k + |x| <= |w| && w[k..k + |x|] == x
    ensures OccursAt(r, x, lo + k)
  {
    forall i | 0 <= i < |x| ensures r[lo + k + i] == x[i] {
      assert r[lo..lo + |w|][k + i] == w[k + i];
      assert w[k..k + |x|][i] == w[k + i];
    }
    assert r[lo + k..lo + k + |x|] == x;
  }

  /** Upper-casing the first character keeps every occurrence after it. */
  lemma CapitalizeKeeps(s: string, x: string, j: int)
    requires s != [] && 1 <= j && OccursAt(s, x, j)
    ensures OccursAt(Capitalize(s), x, j)
  {
    assert Capitalize(s)[j..j + |x|] == s[j..j + |x|];
  }

  /** The subject of a move message: the order phrase for one order, the count otherwise. */
  function MovePhrase(orders: seq<Assignment>): (r: string)
    requires orders != []
    ensures |orders| == 1 ==> r == OrderPhrase(orders[0])
    ensures |orders| > 1 ==> r == IntToString(|orders|) + " orders"
  {
    if |orders| == 1 then OrderPhrase(orders[0]) else IntToString(|orders|) + " orders"
  }

  /** A source label counts only when it is present and not empty, as in the source's truth
      test. */
  predicate FromSource(sourceLabel: Option<string>) {
    sourceLabel.Some? && sourceLabel.value != []
  }

  /** `_format_assignment_move_message`. `sourceLabel` is `None` for a drop from the orders
      tree. Nothing moved gives no message; a drop from another day says where the orders moved
      from and to; a drop on their own day says they remain scheduled there; a drop without a
      source says they were assigned. */
  function FormatMoveMessage(orders: seq<Assignment>, targetLabel: string, sourceLabel: Option<string>,
                             sameDay: bool): (r: string)
    ensures orders == [] <==> r == []
    ensures orders != [] && FromSource(sourceLabel) && !sameDay ==>
              r == "Moved " + MovePhrase(orders) + " from " + sourceLabel.value + " to " + targetLabel + "."
    ensures orders != [] && FromSource(sourceLabel) && sameDay ==>
              r == Capitalize(MovePhrase(orders)) + (if |orders| == 1 then " remains" else " remain") + " scheduled for " + targetLabel + "."
    ensures orders != [] && !FromSource(sourceLabel) ==>
              r == "Assigned " + MovePhrase(orders) + " to " + targetLabel + "."
  {
    if orders == [] then ""
    else
      var phrase := MovePhrase(orders);
      if FromSource(sourceLabel) && !sameDay then
        "Moved " + phrase + " from " + sourceLabel.value + " to " + targetLabel + "."
      else if FromSource(sourceLabel) then
        Capitalize(phrase) + (if |orders| == 1 then " remains" else " remain") + " scheduled for " + targetLabel + "."
      else
        "Assigned " + phrase + " to " + targetLabel + "."
  }

  /** A move message names its target day, names the source day of a move between days, and
      shows the count of several orders or both parts of a single one. */
  lemma MoveMessageNames(orders: seq<Assignment>, targetLabel: string, sourceLabel: Option<string>, sameDay: bool)
    requires orders != []
    ensures var r := FormatMoveMessage(orders, targetLabel, sourceLabel, sameDay);
            && Contains(r, targetLabel)
            && (FromSource(sourceLabel) && !sameDay ==> Contains(r, sourceLabel.value))
            && (|orders| > 1 ==> Contains(r, IntToString(|orders|) + " orders"))
            && (|orders| == 1 ==> Contains(r, Strip(orders[0].orderNumber)) && Contains(r, Strip(orders[0].company)))
  {
    var phrase := MovePhrase(orders);
    if FromSource(sourceLabel) && !sameDay {
      MovedShows(orders, phrase, targetLabel, sourceLabel.value);
    } else if FromSource(sourceLabel) {
      RemainShows(orders, phrase, targetLabel);
    } else {
      AssignedShows(orders, phrase, targetLabel);
    }
  }

  lemma MovedShows(orders: seq<Assignment>, phrase: string, targetLabel: string, source: string)
    requires orders != [] && phrase == MovePhrase(orders)
    ensures var r := "Moved " + phrase + " from " + source + " to " + targetLabel + ".";
            && Contains(r, targetLabel) && Contains(r, source)
            && (|orders| > 1 ==> Contains(r, phrase))
            && (|orders| == 1 ==> Contains(r, Strip(orders[0].orderNumber)) && Contains(r, Strip(orders[0].company)))
  {
    var tail := " to " + targetLabel + ".";
    var r := "Moved " + phrase + " from " + source + " to " + targetLabel + ".";
    assert r == "Moved " + phrase + (" from " + source) + tail;
    MessageShows("Moved ", phrase, " from " + source, tail, orders);
    ContainsRight(" from ", source);
    ContainsInLeft(" from " + source, tail, source);
    assert r == "Moved " + phrase + (" from " + source + tail);
    ContainsInRight("Moved " + phrase, " from " + source + tail, source);
    TargetShows("Moved " + phrase + " from " + source + " to ", targetLabel);
  }

  lemma RemainShows(orders: seq<Assignment>, phrase: string, targetLabel: string)
    requires orders != [] && phrase == MovePhrase(orders)
    ensures var r := Capitalize(phrase) + (if |orders| == 1 then " remains" else " remain") + " scheduled for " + targetLabel + ".";
            && Contains(r, targetLabel)
            && (|orders| > 1 ==> Contains(r, phrase))
            && (|orders| == 1 ==> Contains(r, Strip(orders[0].orderNumber)) && Contains(r, Strip(orders[0].company)))
  {
    var verb := if |orders| == 1 then " remains" else " remain";
    var rest := verb + " scheduled for " + targetLabel + ".";
    CapitalShows(orders);
    assert Capitalize(phrase) + verb + " scheduled for " + targetLabel + "." == Capitalize(phrase) + rest;
    if |orders| > 1 {
      ContainsInLeft(Capitalize(phrase), rest, phrase);
    } else {
      ContainsInLeft(Capitalize(phrase), rest, Strip(orders[0].orderNumber));
      ContainsInLeft(Capitalize(phrase), rest, Strip(orders[0].company));
    }
    TargetShows(Capitalize(phrase) + verb + " scheduled for ", targetLabel);
  }

  lemma AssignedShows(orders: seq<Assignment>, phrase: string, targetLabel: string)
    requires orders != [] && phrase == MovePhrase(orders)
    ensures var r := "Assigned " + phrase + " to " + targetLabel + ".";
            && Contains(r, targetLabel)
            && (|orders| > 1 ==> Contains(r, phrase))
            && (|orders| == 1 ==> Contains(r, Strip(orders[0].orderNumber)) && Contains(r, Strip(orders[0].company)))
  {
    var head := "Assigned " + phrase + " to ";
    MessageShows("Assigned ", phrase, " to ", targetLabel + ".", orders);
    assert head + (targetLabel + ".") == head + targetLabel + ".";
    TargetShows(head, targetLabel);
  }

  /** The parts the phrase shows stay visible in `head + phrase + mid + tail`. */
  lemma MessageShows(head: string, phrase: string, mid: string, tail: string, orders: seq<Assignment>)
    requires orders != [] && phrase == MovePhrase(orders)
    ensures |orders| > 1 ==> Contains(head + phrase + mid + tail, phrase)
    ensures |orders| == 1 ==> (Contains(head + phrase + mid + tail, Strip(orders[0].orderNumber))
                               && Contains(head + phrase + mid + tail, Strip(orders[0].company)))
  {
    assert head + phrase + mid + tail == head + (phrase + (mid + tail));
    if |orders| > 1 {
      ContainsSelf(phrase);
      ContainsInLeft(phrase, mid + tail, phrase);
      ContainsInRight(head, phrase + (mid + tail), phrase);
    } else {
      ContainsInLeft(phrase, mid + tail, Strip(orders[0].orderNumber));
      ContainsInRight(head, phrase + (mid + tail), Strip(orders[0].orderNumber));
      ContainsInLeft(phrase, mid + tail, Strip(orders[0].company));
      ContainsInRight(head, phrase + (mid + tail), Strip(orders[0].company));
    }
  }

  /** The capitalised phrase still shows the count or both parts of the order. */
  lemma CapitalShows(orders: seq<Assignment>)
    requires orders != []
    ensures MovePhrase(orders) != []
    ensures |orders| > 1 ==> Contains(Capitalize(MovePhrase(orders)), MovePhrase(orders))
    ensures |orders| == 1 ==> (Contains(Capitalize(MovePhrase(orders)), Strip(orders[0].orderNumber))
                               && Contains(Capitalize(MovePhrase(orders)), Strip(orders[0].company)))
  {
    var phrase := MovePhrase(orders);
    if |orders| > 1 {
      var n := IntToString(|orders|);
      assert n == NatToString(|orders|);
      assert IsDigit(phrase[0]);
      assert Capitalize(phrase) == phrase;
      ContainsSelf(phrase);
    } else {
      var a := orders[0];
      PhraseShows(Strip(a.orderNumber), Strip(a.company));
      var j1 :| 1 <= j1 && OccursAt(phrase, Strip(a.orderNumber), j1);
      var j2 :| 1 <= j2 && OccursAt(phrase, Strip(a.company), j2);
      CapitalizeKeeps(phrase, Strip(a.orderNumber), j1);
      CapitalizeKeeps(phrase, Strip(a.company), j2);
    }
  }

  lemma TargetShows(head: string, dayLabel: string)
    ensures Contains(head + dayLabel + ".", dayLabel)
  {
    assert (head + dayLabel + ".")[|head|..|head| + |dayLabel|] == dayLabel;
    assert OccursAt(head + dayLabel + ".", dayLabel, |head|);
  }

  /** `_format_removal_message`. */
  function FormatRemovalMessage(a: Assignment, dateLabel: string): string
  {
    RemovalOf(Strip(a.orderNumber), Strip(a.company), dateLabel)
  }

  function RemovalOf(o: string, c: string, dateLabel: string): string
  {
    var head := if o != [] then "Removed order " + o else "Removed order";
    var withCompany := if c == [] then head else if o != [] then head + " (" + c + ")" else head + " for " + c;
    withCompany + " from " + dateLabel + "."
  }
  /** `_format_bulk_removal_message`: empty for no orders, the one-order text for one order, a
      count otherwise. */
  function FormatBulkRemovalMessage(removed: seq<Assignment>, dateLabel: string): (r: string)
    ensures removed == [] <==> r == []
    ensures |removed| == 1 ==> r == FormatRemovalMessage(removed[0], dateLabel)
    ensures |removed| > 1 ==> r == "Removed " + IntToString(|removed|) + " orders from " + dateLabel + "."
  {
    if removed == [] then ""
    else if |removed| == 1 then FormatRemovalMessage(removed[0], dateLabel)
    else "Removed " + IntToString(|removed|) + " orders from " + dateLabel + "."
  }

  /** Every removal status starts with "Removed " and names the day the orders left; a bulk
      removal also gives the count. */
  lemma BulkRemovalNamesDay(removed: seq<Assignment>, dateLabel: string)
    requires removed != []
    ensures var r := FormatBulkRemovalMessage(removed, dateLabel);
            && |r| >= 8 && r[..8] == "Removed "
            && Contains(r, " from " + dateLabel + ".")
            && (|removed| > 1 ==> Contains(r, IntToString(|removed|) + " orders"))
  {
    var r := FormatBulkRemovalMessage(removed, dateLabel);
    if |removed| == 1 {
      assert r == FormatRemovalMessage(removed[0], dateLabel);
      SingleRemovalShape(removed[0], dateLabel);
    } else {
      var count := IntToString(|removed|) + " orders";
      assert r == "Removed " + count + " from " + dateLabel + ".";
      CountRemovalShape(count, dateLabel);
    }
  }

  lemma SingleRemovalShape(a: Assignment, dateLabel: string)
    ensures var r := FormatRemovalMessage(a, dateLabel);
            && |r| >= 8 && r[..8] == "Removed " && Contains(r, " from " + dateLabel + ".")
  {
    RemovalPrefix(Strip(a.orderNumber), Strip(a.company), dateLabel);
  }

  lemma RemovalPrefix(o: string, c: string, dateLabel: string)
    ensures var r := RemovalOf(o, c, dateLabel);
            && |r| >= 8 && r[..8] == "Removed " && Contains(r, " from " + dateLabel + ".")
  {
    var r := RemovalOf(o, c, dateLabel);
    RemovalMessageShape(o, c, dateLabel);
    ShorterPrefix(r, "Removed order", 8);
  }

  lemma ShorterPrefix(r: string, p: string, n: nat)
    requires |p| <= |r| && r[..|p|] == p && n <= |p|
    ensures r[..n] == p[..n]
  {
    assert r[..n] == r[..|p|][..n];
  }

  lemma CountRemovalShape(count: string, dateLabel: string)
    ensures var r := "Removed " + count + " from " + dateLabel + ".";
            && |r| >= 8 && r[..8] == "Removed " && Contains(r, " from " + dateLabel + ".") && Contains(r, count)
  {
    var r := "Removed " + count + " from " + dateLabel + ".";
    assert r == "Removed " + count + (" from " + dateLabel + ".");
    ContainsRight("Removed " + count, " from " + dateLabel + ".");
    ContainsRight("Removed ", count);
    ContainsInLeft("Removed " + count, " from " + dateLabel + ".", count);
  }

  /** The status text after a day is cleared. */
  function FormatClearedMessage(count: nat, dateLabel: string): string {
    "Cleared " + IntToString(count) + " order" + (if count != 1 then "s" else "") + " from " + dateLabel + "."
  }

  /** Every removal message starts with "Removed order", names the day it removed from and ends
      with a full stop. */
  lemma RemovalMessageShape(o: string, c: string, dateLabel: string)
    ensures Contains(RemovalOf(o, c, dateLabel), " from " + dateLabel + ".")
    ensures |RemovalOf(o, c, dateLabel)| >= 13 && RemovalOf(o, c, dateLabel)[..13] == "Removed order"
  {
    var r := RemovalOf(o, c, dateLabel);
    var head := if o != [] then "Removed order " + o else "Removed order";
    var withCompany := if c == [] then head else if o != [] then head + " (" + c + ")" else head + " for " + c;
    assert r == withCompany + (" from " + dateLabel + ".");
    ContainsRight(withCompany, " from " + dateLabel + ".");
    assert head[..13] == "Removed order";
    assert withCompany[..13] == "Removed order";
    assert r[..13] == withCompany[..13];
  }

  // ----- the order filter -----

  /** The filter test of `_apply_order_filter` for one order, with the filter text already
      stripped and lower-cased: an empty filter matches everything. */
  predicate Matches(a: Assignment, filter: string) {
    filter == [] || Contains(Lower(a.orderNumber), filter) || Contains(Lower(a.company), filter)
  }

  /** The rows the orders tree shows for a filter text, in the order of the order list. */
  function FilterOrders(orders: seq<Assignment>, filterText: string): (rows: seq<Assignment>)
    ensures |rows| <= |orders|
    ensures forall i :: 0 <= i < |rows| ==> Matches(rows[i], Lower(Strip(filterText))) && rows[i] in orders
  {
    if orders == [] then []
    else
      var prefix := FilterOrders(orders[..|orders| - 1], filterText);
      var last := orders[|orders| - 1];
      assert forall a :: a in orders[..|orders| - 1] ==> a in orders;
      if Matches(last, Lower(Strip(filterText))) then prefix + [last] else prefix
  }

  /** Filtering one more order appends it exactly when it matches. */
  lemma FilterOrdersStep(orders: seq<Assignment>, i: int, filterText: string)
    requires 0 <= i < |orders|
    ensures FilterOrders(orders[..i + 1], filterText) ==
              FilterOrders(orders[..i], filterText) + (if Matches(orders[i], Lower(Strip(filterText))) then [orders[i]] else [])
  {
    assert orders[..i + 1][..i] == orders[..i];
  }

  /** The loop of `_apply_order_filter` that refills the tree. */
  method ApplyOrderFilter(orders: seq<Assignment>, filterText: string) returns (rows: seq<Assignment>)
    ensures rows == FilterOrders(orders, filterText)
  {
    var filter := Lower(Strip(filterText));
    rows := [];
    var i := 0;
    while i < |orders|
      invariant 0 <= i <= |orders|
      invariant rows == FilterOrders(orders[..i], filterText)
    {
      var order := orders[i];
      FilterOrdersStep(orders, i, filterText);
      if Matches(order, filter) {
        rows := rows + [order];
      }
      i := i + 1;
    }
    assert orders[..|orders|] == orders;
  }

  /** An order is shown exactly when it matches: no matching order is hidden. */
  lemma {:induction false} FilterKeepsMatches(orders: seq<Assignment>, filterText: string, a: Assignment)
    ensures a in FilterOrders(orders, filterText) <==> a in orders && Matches(a, Lower(Strip(filterText)))
  {
    if orders != [] {
      var prefix := orders[..|orders| - 1];
      FilterKeepsMatches(prefix, filterText, a);
      assert orders == prefix + [orders[|orders| - 1]];
    }
  }

  /** A blank filter shows every order in order. */
  lemma {:induction false} BlankFilterShowsAll(orders: seq<Assignment>, filterText: string)
    requires IsBlank(filterText)
    ensures FilterOrders(orders, filterText) == orders
  {
    if orders != [] {
      BlankFilterShowsAll(orders[..|orders| - 1], filterText);
      assert orders == orders[..|orders| - 1] + [orders[|orders| - 1]];
    }
  }
}
