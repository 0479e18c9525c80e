/** The percentage aggregate shown by the table view and the tab dialog (the
    incoming rows followed by the own rows, the content total, one coefficient
    per row, numbering from 1), and the "calculate" action of `App`, which
    writes a coefficient into the own rows of one tab. */
module Aggregate {
  import opened Basics
  import opened Entities
  import Propagation
  import Mutations

  /** `parseFloat(row[col] || 0)`: a missing or empty cell counts as 0. */
  function CellValue(row: Row, col: Column): (r: nat)
    ensures col !in row.cells ==> r == 0
    ensures col in row.cells && row.cells[col] == "" ==> r == 0
  {
    if col in row.cells then ParseNumber(row.cells[col]) else 0
  }

  /** A cell holding the decimal text of a number counts as that number. */
  lemma CellValueOfNumber(row: Row, col: Column, n: nat)
    requires col in row.cells && row.cells[col] == NatToString(n)
    ensures CellValue(row, col) == n
  {
    ParseNumberOfNatToString(n);
  }

  /** The sum of one column over the rows (the `reduce` starting from 0): zero
      exactly when every row's value is zero. */
  function Total(rows: seq<Row>, col: Column): (r: nat)
    ensures r == 0 <==> forall i :: 0 <= i < |rows| ==> CellValue(rows[i], col) == 0
  {
    if rows == [] then 0
    else
      assert forall i :: 1 <= i < |rows| ==> rows[i] == rows[1..][i - 1];
      CellValue(rows[0], col) + Total(rows[1..], col)
  }

  lemma {:induction false} TotalConcat(a: seq<Row>, b: seq<Row>, col: Column)
    ensures Total(a + b, col) == Total(a, col) + Total(b, col)
  {
    if a == [] {
      assert a + b == b;
    } else {
      assert (a + b)[0] == a[0];
      assert (a + b)[1..] == a[1..] + b;
      TotalConcat(a[1..], b, col);
    }
  }

  /** No row's value exceeds the total of the rows it belongs to. */
  lemma {:induction false} CellBelowTotal(rows: seq<Row>, col: Column, i: nat)
    requires i < |rows|
    ensures CellValue(rows[i], col) <= Total(rows, col)
  {
    if i > 0 {
      CellBelowTotal(rows[1..], col, i - 1);
      assert rows[1..][i - 1] == rows[i];
    }
  }

  /** `(part / total * 100).toFixed(2)` on the integer model: the share in
      percent rounded half-up to two decimals, and "NaN" for a zero total. */
  function Percent(part: nat, total: nat): (r: string)
    ensures total == 0 <==> r == "NaN"
    ensures total > 0 ==> |r| >= 4
    ensures total > 0 ==> r[|r| - 3] == '.' && IsDigit(r[|r| - 2]) && IsDigit(r[|r| - 1])
  {
    if total == 0 then "NaN"
    else Fixed2((part * 20000 + total) / (2 * total))
  }

  /** A number of hundredths written with two decimals. */
  function Fixed2(hundredths: nat): string {
    NatToString(hundredths / 100) + "." + [DigitChar(hundredths % 100 / 10), DigitChar(hundredths % 10)]
  }

  /** One displayed row: the row, its coefficient text and its number. */
  datatype DisplayRow = DisplayRow(row: Row, coefficient: string, number: nat)

  /** The rows a tab displays: incoming rows first, own rows after. */
  function AllData(tab: Tab): (r: seq<Row>)
    ensures |r| == |tab.incomingData| + |tab.data|
  {
    tab.incomingData + tab.data
  }

  /** The sum of the content column over everything the tab displays. */
  function TotalContent(tab: Tab): nat {
    Total(AllData(tab), Content)
  }

  /** The displayed rows with their coefficients and numbers. */
  function DisplayRows(tab: Tab): (r: seq<DisplayRow>)
    ensures |r| == |tab.incomingData| + |tab.data|
    ensures forall i :: 0 <= i < |r| ==> r[i].row == AllData(tab)[i] && r[i].number == i + 1
  {
    var all := AllData(tab);
    var total := TotalContent(tab);
    seq(|all|, i requires 0 <= i < |all| =>
      DisplayRow(all[i], Percent(CellValue(all[i], Content), total), i + 1))
  }

  /** The display list is the incoming rows followed by the own rows, numbered
      1..n in that order. */
  lemma DisplayOrder(tab: Tab)
    ensures forall k :: 0 <= k < |tab.incomingData| ==> DisplayRows(tab)[k].row == tab.incomingData[k]
    ensures forall j :: 0 <= j < |tab.data| ==>
      DisplayRows(tab)[|tab.incomingData| + j].row == tab.data[j]
    ensures forall i :: 0 <= i < |DisplayRows(tab)| ==> DisplayRows(tab)[i].number == i + 1
  {
    AllDataParts(tab);
  }

  /** Indexing into the display list: incoming rows, then own rows. */
  lemma AllDataParts(tab: Tab)
    ensures forall k :: 0 <= k < |tab.incomingData| ==> AllData(tab)[k] == tab.incomingData[k]
    ensures forall j :: 0 <= j < |tab.data| ==> AllData(tab)[|tab.incomingData| + j] == tab.data[j]
  {
  }

  /** The total splits into the incoming part and the own part. */
  lemma TotalContentSplit(tab: Tab)
    ensures TotalContent(tab) == Total(tab.incomingData, Content) + Total(tab.data, Content)
  {
    TotalConcat(tab.incomingData, tab.data, Content);
  }

  /** Every displayed row, incoming or own, gets the coefficient of its own
      content against the total, and its content never exceeds that total. */
  lemma EveryRowHasCoefficient(tab: Tab, i: nat)
    requires i < |tab.incomingData| + |tab.data|
    ensures DisplayRows(tab)[i].coefficient
         == Percent(CellValue(AllData(tab)[i], Content), TotalContent(tab))
    ensures CellValue(AllData(tab)[i], Content) <= TotalContent(tab)
  {
    CellBelowTotal(AllData(tab), Content, i);
  }

  /** A zero total never fails: every coefficient is the "NaN" placeholder. */
  lemma ZeroTotalCoefficients(tab: Tab)
    requires TotalContent(tab) == 0
    ensures forall i :: 0 <= i < |DisplayRows(tab)| ==> DisplayRows(tab)[i].coefficient == "NaN"
  {
  }

  /** Contents 10, 20 and 30 give the shares "16.67", "33.33" and "50.00". */
  lemma PercentExample()
    ensures Percent(10, 60) == "16.67" && Percent(20, 60) == "33.33" && Percent(30, 60) == "50.00"
  {
    assert (10 * 20000 + 60) / (2 * 60) == 1667;
    assert (20 * 20000 + 60) / (2 * 60) == 3333;
    assert (30 * 20000 + 60) / (2 * 60) == 5000;
    Fixed2Text(1, 6, 6, 7);
    Fixed2Text(3, 3, 3, 3);
    Fixed2Text(5, 0, 0, 0);
  }

  /** The two-decimal text of a number of hundredths with two integer digits. */
  lemma Fixed2Text(tens: nat, units: nat, d1: nat, d2: nat)
    requires 1 <= tens < 10 && units < 10 && d1 < 10 && d2 < 10
    ensures Fixed2(tens * 1000 + units * 100 + d1 * 10 + d2)
         == [DigitChar(tens), DigitChar(units), '.', DigitChar(d1), DigitChar(d2)]
  {
    var h := tens * 1000 + units * 100 + d1 * 10 + d2;
    var q, rem := tens * 10 + units, d1 * 10 + d2;
    assert h == q * 100 + rem && 0 <= rem < 100;
    assert h / 100 == q && h % 100 == rem;
    assert rem / 10 == d1;
    assert h == (q * 10 + d1) * 10 + d2;
    assert h % 10 == d2;
    TwoDigitText(tens, units);
  }

  lemma TwoDigitText(tens: nat, units: nat)
    requires 1 <= tens < 10 && units < 10
    ensures NatToString(tens * 10 + units) == [DigitChar(tens), DigitChar(units)]
  {
    var n := tens * 10 + units;
    assert n / 10 == tens && n % 10 == units;
  }

  /** The table view's read-only block: the first |incoming| displayed rows. */
  function ReadOnlyBlock(tab: Tab): (r: seq<DisplayRow>)
    ensures |r| == |tab.incomingData|
    ensures forall k :: 0 <= k < |r| ==> r[k].row == tab.incomingData[k] && r[k].number == k + 1
  {
    DisplayRows(tab)[..|tab.incomingData|]
  }

  /** The number the table view prints before own row j. */
  function OwnRowNumber(tab: Tab, j: nat): nat {
    j + 1 + |tab.incomingData|
  }

  /** The table view's own-row numbering agrees with the display list's. */
  lemma OwnRowNumbering(tab: Tab, j: nat)
    requires j < |tab.data|
    ensures OwnRowNumber(tab, j) == DisplayRows(tab)[|tab.incomingData| + j].number
    ensures DisplayRows(tab)[|tab.incomingData| + j].row == tab.data[j]
  {
    var k := |tab.incomingData| + j;
    var r := DisplayRows(tab);
    assert r[k].row == AllData(tab)[k] && r[k].number == k + 1;
    assert AllData(tab)[k] == tab.data[j];
  }

  /** `calculateTab`'s new own rows: each own row keeps its id, tag and cells
      except `col3`, which receives the row's `col2` share of the `col2` total
      over everything the tab displays. */
  function Labelled(tab: Tab): (r: seq<Row>)
    ensures |r| == |tab.data|
    ensures forall j :: 0 <= j < |r| ==>
      r[j].id == tab.data[j].id && r[j].arrowId == tab.data[j].arrowId
      && Col3 in r[j].cells && r[j].cells - {Col3} == tab.data[j].cells - {Col3}
    ensures forall j :: 0 <= j < |r| ==>
      r[j].cells[Col3] == Percent(CellValue(tab.data[j], Col2), Total(AllData(tab), Col2))
  {
    var total := Total(AllData(tab), Col2);
    seq(|tab.data|, j requires 0 <= j < |tab.data| =>
      var row := tab.data[j];
      row.(cells := row.cells[Col3 := Percent(CellValue(row, Col2), total)]))
  }

  /** `calculateTab`: when a tab has the id, every tab with that id takes the
      labelled own rows of the first one, then the full recompute runs. */
  function CalculateTab(tabs: seq<Tab>, arrows: seq<Arrow>, tabId: Id): (r: seq<Tab>)
    ensures |r| == |tabs|
    ensures tabId !in TabIds(tabs) ==> r == tabs
  {
    match FindTab(tabs, tabId)
    case None => tabs
    case Some(t) => Propagation.Recompute(Mutations.SetTabData(tabs, tabId, Labelled(t)), arrows)
  }

  /** The calculate action changes only own rows of the tabs with the id: they
      become the labelled rows of the first such tab (same count, ids and
      cells but `col3`, and `col3` the share); every tab's incoming rows are
      recomputed. */
  lemma CalculateTabStructure(tabs: seq<Tab>, arrows: seq<Arrow>, tabId: Id)
    requires tabId in TabIds(tabs)
    ensures var r := CalculateTab(tabs, arrows, tabId);
      && (forall i :: 0 <= i < |tabs| ==> r[i].id == tabs[i].id && r[i].name == tabs[i].name)
      && (forall i :: 0 <= i < |tabs| && tabs[i].id != tabId ==> r[i].data == tabs[i].data)
      && (forall i :: 0 <= i < |tabs| && tabs[i].id == tabId ==> r[i].data == Labelled(FindTab(tabs, tabId).value))
      && (forall i :: 0 <= i < |tabs| ==> r[i].incomingData == Propagation.IncomingFor(tabs, arrows, tabs[i].id))
  {
    var t := FindTab(tabs, tabId).value;
    var edited := Mutations.SetTabData(tabs, tabId, Labelled(t));
    SameIdsSameTabIds(edited, tabs);
  }
}
