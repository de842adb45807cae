/** `_format_table` of the command line interface: the scraped orders as a two-column text
    table framed by `+---+` dividers. */
module Table {
  import opened Text

  /** A scraped order: its order number and its company. */
  datatype OrderRecord = OrderRecord(orderNumber: string, company: string)

  const OrderHeader := "Order#"
  const CompanyHeader := "Company"

  function Max(a: int, b: int): int { if a >= b then a else b }

  /** The left padding `str.center` gives: half the padding, plus one when both the padding and
      the width are odd. */
  function CenterLeft(len: nat, width: nat): nat
    requires len <= width
  {
    var pad := width - len;
    pad / 2 + (if pad % 2 == 1 && width % 2 == 1 then 1 else 0)
  }

  /** `s.center(width)`: `s` itself when it is at least as wide, otherwise `s` padded with
      spaces on both sides up to `width`. */
  function Center(s: string, width: nat): string
  {
    if |s| >= width then s
    else
      var left := CenterLeft(|s|, width);
      Repeat(' ', left) + s + Repeat(' ', width - |s| - left)
  }

  /** A centred text is as wide as the width asked for (or the text, if wider), holds the text
      at the left padding, and spaces everywhere else; the two paddings total `width - len`. */
  lemma CenterShape(s: string, width: nat)
    ensures |s| >= width ==> Center(s, width) == s
    ensures |s| < width ==>
              var left := CenterLeft(|s|, width);
              var r := Center(s, width);
              && left <= width - |s| && |r| == width
              && r[left..left + |s|] == s
              && (forall i :: 0 <= i < left ==> r[i] == ' ')
              && (forall i :: left + |s| <= i < width ==> r[i] == ' ')
  {
    if |s| < width {
      var left := CenterLeft(|s|, width);
      var r := Center(s, width);
      assert r == Repeat(' ', left) + s + Repeat(' ', width - |s| - left);
      assert r[left..left + |s|] == s;
    }
  }

  /** The column widths: each header's length, widened to the longest value in its column. */
  function Widths(orders: seq<OrderRecord>): (w: (nat, nat))
  {
    if orders == [] then (|OrderHeader|, |CompanyHeader|)
    else
      var (a, b) := Widths(orders[..|orders| - 1]);
      var last := orders[|orders| - 1];
      (Max(a, |last.orderNumber|), Max(b, |last.company|))
  }

  /** Each width is at least its header's length and every value's length in its column, and
      it is the header's length or the length of some value: the maximum of them. */
  lemma {:induction false} WidthsAreMaxima(orders: seq<OrderRecord>)
    ensures var w := Widths(orders);
            && w.0 >= |OrderHeader| && w.1 >= |CompanyHeader|
            && (forall i :: 0 <= i < |orders| ==> |orders[i].orderNumber| <= w.0 && |orders[i].company| <= w.1)
            && (w.0 == |OrderHeader| || exists i :: 0 <= i < |orders| && |orders[i].orderNumber| == w.0)
            && (w.1 == |CompanyHeader| || exists i :: 0 <= i < |orders| && |orders[i].company| == w.1)
  {
    if orders != [] {
      var init := orders[..|orders| - 1];
      WidthsAreMaxima(init);
      assert forall i :: 0 <= i < |init| ==> init[i] == orders[i];
      var (a, b) := Widths(init);
      if a != |OrderHeader| && a >= |orders[|orders| - 1].orderNumber| {
        var i :| 0 <= i < |init| && |init[i].orderNumber| == a;
        assert |orders[i].orderNumber| == a;
      }
      if b != |CompanyHeader| && b >= |orders[|orders| - 1].company| {
        var i :| 0 <= i < |init| && |init[i].company| == b;
        assert |orders[i].company| == b;
      }
    }
  }

  /** `"+" + "-" * (w0 + 2) + "+" + "-" * (w1 + 2) + "+"`. */
  function Divider(w0: nat, w1: nat): (r: string)
    ensures |r| == w0 + w1 + 7
  {
    "+" + Repeat('-', w0 + 2) + "+" + Repeat('-', w1 + 2) + "+"
  }

  /** One cell: the centred text between single spaces. */
  function Cell(text: string, width: nat): string {
    " " + Center(text, width) + " "
  }

  /** Two cells between bars. */
  function Frame(c0: string, c1: string): string {
    "|" + c0 + "|" + c1 + "|"
  }

  /** A header or row line. */
  function Line(first: string, second: string, w0: nat, w1: nat): string {
    Frame(Cell(first, w0), Cell(second, w1))
  }

  function RowLines(orders: seq<OrderRecord>, w0: nat, w1: nat): (r: seq<string>)
    ensures |r| == |orders|
    ensures forall i :: 0 <= i < |orders| ==> r[i] == Line(orders[i].orderNumber, orders[i].company, w0, w1)
  {
    seq(|orders|, i requires 0 <= i < |orders| => Line(orders[i].orderNumber, orders[i].company, w0, w1))
  }

  lemma RowLinesSnoc(orders: seq<OrderRecord>, i: int, w0: nat, w1: nat)
    requires 0 <= i < |orders|
    ensures RowLines(orders[..i + 1], w0, w1) == RowLines(orders[..i], w0, w1) + [Line(orders[i].orderNumber, orders[i].company, w0, w1)]
  {
    assert orders[..i + 1][..i] == orders[..i];
  }

  /** The lines of the table: divider, header, divider, one line per order, divider. */
  function TableLines(orders: seq<OrderRecord>): seq<string> {
    var (w0, w1) := Widths(orders);
    var divider := Divider(w0, w1);
    Assemble(divider, Line(OrderHeader, CompanyHeader, w0, w1), RowLines(orders, w0, w1))
  }

  function Assemble(divider: string, header: string, rows: seq<string>): (r: seq<string>)
    ensures |r| == |rows| + 4
    ensures r[0] == divider && r[1] == header && r[2] == divider && r[|r| - 1] == divider
    ensures forall i :: 0 <= i < |rows| ==> r[3 + i] == rows[i]
  {
    [divider, header, divider] + rows + [divider]
  }

  /** The first loop of `_format_table`: each column is widened to its longest value. */
  method ColumnWidths(orders: seq<OrderRecord>) returns (w0: nat, w1: nat)
    ensures (w0, w1) == Widths(orders)
  {
    w0, w1 := |OrderHeader|, |CompanyHeader|;
    var i := 0;
    while i < |orders|
      invariant 0 <= i <= |orders|
      invariant (w0, w1) == Widths(orders[..i])
    {
      assert orders[..i + 1][..i] == orders[..i];
      w0 := Max(w0, |orders[i].orderNumber|);
      w1 := Max(w1, |orders[i].company|);
      i := i + 1;
    }
    assert orders[..|orders|] == orders;
  }

  /** The lines `_format_table` collects: the divider and header, then a loop appending one
      line per order in input order, then the closing divider. */
  method CollectLines(orders: seq<OrderRecord>) returns (lines: seq<string>)
    ensures lines == TableLines(orders)
  {
    var w0, w1 := ColumnWidths(orders);
    var divider := Divider(w0, w1);
    lines := [divider, Line(OrderHeader, CompanyHeader, w0, w1), divider];
    ghost var head := lines;
    var i := 0;
    while i < |orders|
      invariant 0 <= i <= |orders|
      invariant lines == head + RowLines(orders[..i], w0, w1)
    {
      RowLinesSnoc(orders, i, w0, w1);
      lines := lines + [Line(orders[i].orderNumber, orders[i].company, w0, w1)];
      i := i + 1;
    }
    assert orders[..|orders|] == orders;
    lines := lines + [divider];
    assert lines == Assemble(divider, Line(OrderHeader, CompanyHeader, w0, w1), RowLines(orders, w0, w1));
  }

  /** `_format_table`: the collected lines joined with newlines, none after the last. */
  method FormatTable(orders: seq<OrderRecord>) returns (text: string)
    ensures text == Join(TableLines(orders), "\n")
  {
    var lines := CollectLines(orders);
    text := Join(lines, "\n");
  }

  /** A cell of a value no wider than its column is as wide as the column plus the two spaces,
      and shows the value with `width - len` spaces of padding around it. */
  lemma CellShape(text: string, width: nat)
    requires |text| <= width
    ensures |Cell(text, width)| == width + 2
    ensures var left := if |text| < width then CenterLeft(|text|, width) else 0;
            && OccursAt(Cell(text, width), text, 1 + left)
            && (forall i :: 1 <= i < 1 + left ==> Cell(text, width)[i] == ' ')
            && (forall i :: 1 + left + |text| <= i < width + 1 ==> Cell(text, width)[i] == ' ')
  {
    var c := Center(text, width);
    CenterShape(text, width);
    assert Cell(text, width) == [' '] + c + [' '];
    if |text| < width {
      var left := CenterLeft(|text|, width);
      assert Cell(text, width)[1 + left..1 + left + |text|] == c[left..left + |text|];
    } else {
      assert Cell(text, width)[1..1 + |text|] == c;
    }
  }

  /** Where the two cells sit in a line. */
  lemma FrameParts(c0: string, c1: string)
    ensures |Frame(c0, c1)| == |c0| + |c1| + 3
    ensures Frame(c0, c1)[1..1 + |c0|] == c0
    ensures Frame(c0, c1)[2 + |c0|..2 + |c0| + |c1|] == c1
  {
    assert Frame(c0, c1) == ("|" + c0) + ("|" + c1 + "|");
  }

  /** An occurrence inside a slice is an occurrence in the whole text. */
  lemma OccursWithin(whole: string, part: string, off: int, needle: string, j: int)
    requires 0 <= off <= off + |part| <= |whole| && whole[off..off + |part|] == part
    requires OccursAt(part, needle, j)
    ensures OccursAt(whole, needle, off + j)
  {
    assert forall k :: 0 <= k < |part| ==> part[k] == whole[off + k];
    assert whole[off + j..off + j + |needle|] == part[j..j + |needle|];
  }

  /** Every line built from values that fit their columns is exactly as long as the divider. */
  lemma LineLength(first: string, second: string, w0: nat, w1: nat)
    requires |first| <= w0 && |second| <= w1
    ensures |Line(first, second, w0, w1)| == |Divider(w0, w1)|
  {
    CellShape(first, w0);
    CellShape(second, w1);
    FrameParts(Cell(first, w0), Cell(second, w1));
  }

  /** Each row line shows its order number and its company. */
  lemma LineShowsValues(first: string, second: string, w0: nat, w1: nat)
    requires |first| <= w0 && |second| <= w1
    ensures Contains(Line(first, second, w0, w1), first) && Contains(Line(first, second, w0, w1), second)
  {
    var c0 := Cell(first, w0);
    var c1 := Cell(second, w1);
    CellShape(first, w0);
    CellShape(second, w1);
    FrameParts(c0, c1);
    var l0 := if |first| < w0 then CenterLeft(|first|, w0) else 0;
    var l1 := if |second| < w1 then CenterLeft(|second|, w1) else 0;
    OccursWithin(Frame(c0, c1), c0, 1, first, 1 + l0);
    OccursWithin(Frame(c0, c1), c1, 2 + |c0|, second, 1 + l1);
  }

  /** Where each line of the table comes from. */
  lemma TableLinesAt(orders: seq<OrderRecord>)
    ensures var lines := TableLines(orders);
            var (w0, w1) := Widths(orders);
            && |lines| == |orders| + 4
            && lines[0] == Divider(w0, w1) && lines[2] == Divider(w0, w1) && lines[|lines| - 1] == Divider(w0, w1)
            && lines[1] == Line(OrderHeader, CompanyHeader, w0, w1)
            && (forall i :: 0 <= i < |orders| ==> lines[3 + i] == Line(orders[i].orderNumber, orders[i].company, w0, w1))
  {
  }

  /** The table has four lines more than there are orders; the first, third and last lines
      are the divider, the second the header, and line `3 + i` the row of order `i`; every
      line has the divider's length. */
  lemma {:induction false} TableShape(orders: seq<OrderRecord>)
    ensures var lines := TableLines(orders);
            var (w0, w1) := Widths(orders);
            && |lines| == |orders| + 4
            && lines[0] == Divider(w0, w1) && lines[2] == Divider(w0, w1) && lines[|lines| - 1] == Divider(w0, w1)
            && lines[1] == Line(OrderHeader, CompanyHeader, w0, w1)
            && (forall i :: 0 <= i < |orders| ==> lines[3 + i] == Line(orders[i].orderNumber, orders[i].company, w0, w1))
            && (forall i :: 0 <= i < |lines| ==> |lines[i]| == |Divider(w0, w1)|)
  {
    TableLinesAt(orders);
    var lines := TableLines(orders);
    forall i | 0 <= i < |lines| ensures |lines[i]| == |Divider(Widths(orders).0, Widths(orders).1)| {
      TableLineLength(orders, i);
    }
  }

  lemma TableLineLength(orders: seq<OrderRecord>, i: int)
    requires 0 <= i < |orders| + 4
    ensures |TableLines(orders)[i]| == |Divider(Widths(orders).0, Widths(orders).1)|
  {
    HeaderLineLength(orders, i);
    RowLineLength(orders, i);
    DividerLines(orders, i);
  }

  /** The header line has the divider's length. */
  lemma HeaderLineLength(orders: seq<OrderRecord>, i: int)
    ensures |TableLines(orders)| == |orders| + 4
    ensures i == 1 ==> |TableLines(orders)[i]| == |Divider(Widths(orders).0, Widths(orders).1)|
  {
    var w := Widths(orders);
    TableLinesAt(orders);
    WidthsAreMaxima(orders);
    LineLength(OrderHeader, CompanyHeader, w.0, w.1);
  }

  /** The row of each order has the divider's length. */
  lemma RowLineLength(orders: seq<OrderRecord>, i: int)
    ensures |TableLines(orders)| == |orders| + 4
    ensures 3 <= i < |orders| + 3 ==> |TableLines(orders)[i]| == |Divider(Widths(orders).0, Widths(orders).1)|
  {
    TableLinesAt(orders);
    if 3 <= i < |orders| + 3 {
      var w := Widths(orders);
      var o := orders[i - 3];
      WidthsAreMaxima(orders);
      assert |o.orderNumber| <= w.0 && |o.company| <= w.1;
      LineLength(o.orderNumber, o.company, w.0, w.1);
    }
  }

  /** The first, third and last lines are the divider. */
  lemma DividerLines(orders: seq<OrderRecord>, i: int)
    ensures |TableLines(orders)| == |orders| + 4
    ensures i == 0 || i == 2 || i == |orders| + 3 ==>
              TableLines(orders)[i] == Divider(Widths(orders).0, Widths(orders).1)
  {
    TableLinesAt(orders);
  }

  predicate NoNewline(s: string) {
    forall i :: 0 <= i < |s| ==> s[i] != '\n'
  }

  lemma CellNoNewline(text: string, width: nat)
    requires NoNewline(text)
    ensures NoNewline(Cell(text, width))
  {
    var c := Center(text, width);
    CenterShape(text, width);
    assert Cell(text, width) == [' '] + c + [' '];
    if |text| < width {
      var left := CenterLeft(|text|, width);
      forall i | 0 <= i < |c| ensures c[i] != '\n' {
        if left <= i < left + |text| {
          assert c[i] == c[left..left + |text|][i - left];
        }
      }
    }
  }

  lemma LineNoNewline(first: string, second: string, w0: nat, w1: nat)
    requires NoNewline(first) && NoNewline(second)
    ensures NoNewline(Line(first, second, w0, w1))
  {
    CellNoNewline(first, w0);
    CellNoNewline(second, w1);
    var c0 := Cell(first, w0);
    var c1 := Cell(second, w1);
    FrameParts(c0, c1);
    var f := Frame(c0, c1);
    forall i | 0 <= i < |f| ensures f[i] != '\n' {
      if 1 <= i < 1 + |c0| {
        assert f[i] == f[1..1 + |c0|][i - 1];
      } else if 2 + |c0| <= i < 2 + |c0| + |c1| {
        assert f[i] == f[2 + |c0|..2 + |c0| + |c1|][i - 2 - |c0|];
      } else {
        assert f == "|" + c0 + "|" + c1 + "|";
      }
    }
  }

  /** Splitting the text at its newlines gives the table lines back, when no order number or
      company holds a newline: the output is exactly those lines, with no trailing newline. */
  lemma {:induction false} FormatTableLines(orders: seq<OrderRecord>)
    requires forall i :: 0 <= i < |orders| ==> NoNewline(orders[i].orderNumber) && NoNewline(orders[i].company)
    ensures Split(Join(TableLines(orders), "\n"), '\n') == TableLines(orders)
  {
    var lines := TableLines(orders);
    forall k | 0 <= k < |lines| ensures NoNewline(lines[k]) {
      TableLineNoNewline(orders, k);
    }
    assert "\n" == ['\n'];
    SplitOfJoin(lines, '\n');
  }

  lemma TableLineNoNewline(orders: seq<OrderRecord>, k: int)
    requires forall i :: 0 <= i < |orders| ==> NoNewline(orders[i].orderNumber) && NoNewline(orders[i].company)
    requires 0 <= k < |orders| + 4
    ensures NoNewline(TableLines(orders)[k])
  {
    var (w0, w1) := Widths(orders);
    TableLinesAt(orders);
    var line := TableLines(orders)[k];
    if k == 1 {
      assert line == Line(OrderHeader, CompanyHeader, w0, w1);
      assert NoNewline(Line(OrderHeader, CompanyHeader, w0, w1)) by {
        HeadersNoNewline();
        LineNoNewline(OrderHeader, CompanyHeader, w0, w1);
      }
    } else if 3 <= k < |orders| + 3 {
      var o := orders[k - 3];
      assert line == Line(o.orderNumber, o.company, w0, w1);
      assert NoNewline(Line(o.orderNumber, o.company, w0, w1)) by {
        LineNoNewline(o.orderNumber, o.company, w0, w1);
      }
    } else {
      assert line == Divider(w0, w1);
      assert NoNewline(Divider(w0, w1)) by {
        DividerNoNewline(w0, w1);
      }
    }
  }

  lemma HeadersNoNewline()
    ensures NoNewline(OrderHeader) && NoNewline(CompanyHeader)
  {
  }

  lemma DividerNoNewline(w0: nat, w1: nat)
    ensures NoNewline(Divider(w0, w1))
  {
    var d := Divider(w0, w1);
    assert d == "+" + Repeat('-', w0 + 2) + "+" + Repeat('-', w1 + 2) + "+";
    forall i | 0 <= i < |d| ensures d[i] == '+' || d[i] == '-' {
    }
  }

  /** `Split` undoes `Join` when no part holds the separator. */
  lemma {:induction false} SplitOfJoin(parts: seq<string>, sep: char)
    requires parts != []
    requires forall k, i :: 0 <= k < |parts| && 0 <= i < |parts[k]| ==> parts[k][i] != sep
    ensures Split(Join(parts, [sep]), sep) == parts
  {
    if |parts| == 1 {
      SplitNoSep(parts[0], sep);
    } else {
      SplitOfJoin(parts[1..], sep);
      assert Join(parts, [sep]) == parts[0] + [sep] + Join(parts[1..], [sep]);
      SplitAtFirst(parts[0], Join(parts[1..], [sep]), sep);
      assert [parts[0]] + parts[1..] == parts;
    }
  }
}
