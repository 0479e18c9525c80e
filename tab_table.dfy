/** The table view of the active tab: editing a cell of an own row, the
    new-row form and appending it, deleting an own row (each followed by the
    page's save-and-calculate and the synchronisation of the row's copies),
    and asking to clean the tab. The display list and its aggregate live in
    `Aggregate`. */
module TabTable {
  import opened Basics
  import opened Entities
  import App
  import TabsPage

  /** The new-row form with every field empty. */
  function EmptyRow(id: Id): Row {
    Row(id, map[Name := "", Content := "", Moisture := "", Ash := "", CalorificValue := "", ExtractionCoefficient := ""], None)
  }

  /** `{ ...row, [col]: value }` */
  function SetCell(row: Row, col: Column, value: string): (r: Row)
    ensures r.id == row.id && r.arrowId == row.arrowId
    ensures col in r.cells && r.cells[col] == value
    ensures forall c :: c != col ==> (c in r.cells <==> c in row.cells)
    ensures forall c :: c != col && c in row.cells ==> r.cells[c] == row.cells[c]
  {
    row.(cells := row.cells[col := value])
  }

  /** `rows.find(row => row.id === id)`: the first row with the id. */
  function FindRow(rows: seq<Row>, id: Id): (r: Option<Row>)
    ensures r.Some? <==> id in RowIds(rows)
    ensures r.Some? ==> r.value.id == id
    ensures r.Some? ==> exists i :: 0 <= i < |rows| && rows[i] == r.value
                          && forall k :: 0 <= k < i ==> rows[k].id != id
  {
    if rows == [] then None
    else if rows[0].id == id then Some(rows[0])
    else
      var r := FindRow(rows[1..], id);
      assert RowIds(rows) == {rows[0].id} + RowIds(rows[1..]) by {
        forall x | x in RowIds(rows) ensures x in {rows[0].id} + RowIds(rows[1..]) {
          var i :| 0 <= i < |rows| && rows[i].id == x;
          if i > 0 { assert rows[1..][i - 1].id == x; }
        }
        forall x | x in RowIds(rows[1..]) ensures x in RowIds(rows) {
          var i :| 0 <= i < |rows[1..]| && rows[1..][i].id == x;
          assert rows[i + 1].id == x;
        }
      }
      if r.Some? then
        assert exists i :: 0 <= i < |rows| && rows[i] == r.value
                             && forall k :: 0 <= k < i ==> rows[k].id != id by {
          var i :| 0 <= i < |rows[1..]| && rows[1..][i] == r.value
                   && forall k :: 0 <= k < i ==> rows[1..][k].id != id;
          assert rows[i + 1] == r.value;
          forall k | 0 <= k < i + 1 ensures rows[k].id != id {
            if k > 0 { assert rows[k] == rows[1..][k - 1]; }
          }
        }
        r
      else r
  }

  /** The own rows after `handleInputChange`: every row with the id becomes
      the first such row with the cell set; an unknown id changes nothing. */
  function EditedData(data: seq<Row>, rowId: Id, col: Column, value: string): (r: seq<Row>)
    ensures |r| == |data|
    ensures rowId !in RowIds(data) ==> r == data
  {
    match FindRow(data, rowId)
    case None => data
    case Some(found) => ReplaceById(data, SetCell(found, col, value))
  }

  /** With distinct row ids, editing changes only column `col` of the row with
      the id; every other row, the length and the order are unchanged. */
  lemma EditChangesOneCell(data: seq<Row>, rowId: Id, col: Column, value: string)
    requires forall i, j :: 0 <= i < j < |data| ==> data[i].id != data[j].id
    ensures forall i :: 0 <= i < |data| ==>
      EditedData(data, rowId, col, value)[i] == if data[i].id == rowId then SetCell(data[i], col, value) else data[i]
  {
    var found := FindRow(data, rowId);
    if found.Some? {
      var k :| 0 <= k < |data| && data[k] == found.value && forall m :: 0 <= m < k ==> data[m].id != rowId;
      assert forall i :: 0 <= i < |data| && data[i].id == rowId ==> data[i] == found.value;
    }
  }

  /** `addNewRow`'s own rows: the form's row under a fresh id, at the end. */
  function AppendRow(data: seq<Row>, newRow: Row, freshId: Id): (r: seq<Row>)
    ensures |r| == |data| + 1 && r[..|data|] == data
    ensures r[|data|].id == freshId && r[|data|].cells == newRow.cells
  {
    data + [newRow.(id := freshId)]
  }

  /** Deleting the appended row by its fresh id gives the own rows back. */
  lemma DeleteUndoesAppend(data: seq<Row>, newRow: Row, freshId: Id)
    requires freshId !in RowIds(data)
    ensures RemoveById(AppendRow(data, newRow, freshId), freshId) == data
  {
    RemoveByIdAppend(data, newRow.(id := freshId));
  }

  /** The tabs and arrows after `handleInputChange` in the active tab: the
      edited rows are saved (and the active tab calculated), then the edited
      row replaces its copies everywhere. */
  function AfterInputChange(tabs: seq<Tab>, arrows: seq<Arrow>, active: Id, rowId: Id, col: Column, value: string): (r: (seq<Tab>, seq<Arrow>))
    requires active in TabIds(tabs)
    ensures |r.0| == |tabs| && |r.1| == |arrows|
    ensures forall i :: 0 <= i < |tabs| ==> r.0[i].id == tabs[i].id && r.0[i].name == tabs[i].name
    ensures forall i :: 0 <= i < |tabs| && tabs[i].id != active ==> r.0[i].data == tabs[i].data
    ensures rowId !in RowIds(FindTab(tabs, active).value.data) ==> r.1 == arrows
    ensures forall i :: 0 <= i < |tabs| && tabs[i].id == active ==>
      |r.0[i].data| == |EditedData(FindTab(tabs, active).value.data, rowId, col, value)|
    ensures forall i, j :: 0 <= i < |tabs| && tabs[i].id == active && 0 <= j < |r.0[i].data| ==>
      var edited := EditedData(FindTab(tabs, active).value.data, rowId, col, value)[j];
      r.0[i].data[j].id == edited.id && r.0[i].data[j].cells - {Col3} == edited.cells - {Col3}
  {
    var tab := FindTab(tabs, active).value;
    var newData := EditedData(tab.data, rowId, col, value);
    var saved := TabsPage.AfterUpdateTabData(tabs, arrows, Some(active), tab.id, newData);
    SavedOwnRows(tabs, arrows, active, newData);
    var r := match FindRow(tab.data, rowId)
      case None => (saved, arrows)
      case Some(found) => TabsPage.Synchronised(saved, arrows, SetCell(found, col, value), TabsPage.Update);
    assert forall i :: 0 <= i < |tabs| ==> r.0[i].data == saved[i].data;
    r
  }

  /** Saving new own rows for the active tab: that tab's own rows become the
      new rows, up to the recalculated `col3`. */
  lemma SavedOwnRows(tabs: seq<Tab>, arrows: seq<Arrow>, active: Id, newData: seq<Row>)
    requires active in TabIds(tabs)
    ensures var saved := TabsPage.AfterUpdateTabData(tabs, arrows, Some(active), FindTab(tabs, active).value.id, newData);
      forall i :: 0 <= i < |tabs| && tabs[i].id == active ==>
        && |saved[i].data| == |newData|
        && forall j :: 0 <= j < |newData| ==>
             saved[i].data[j].id == newData[j].id && saved[i].data[j].cells - {Col3} == newData[j].cells - {Col3}
  {
    var saved := TabsPage.AfterUpdateTabData(tabs, arrows, Some(active), FindTab(tabs, active).value.id, newData);
    forall i | 0 <= i < |tabs| && tabs[i].id == active
      ensures |saved[i].data| == |newData|
      ensures forall j :: 0 <= j < |newData| ==>
        saved[i].data[j].id == newData[j].id && saved[i].data[j].cells - {Col3} == newData[j].cells - {Col3}
    {
      TabsPage.UpdateTabDataEffect(tabs, arrows, active, newData, i);
    }
  }

  /** After an edit, every incoming copy of the row in every tab is the edited
      row. */
  lemma InputChangeSyncsCopies(tabs: seq<Tab>, arrows: seq<Arrow>, active: Id, rowId: Id, col: Column, value: string)
    requires active in TabIds(tabs)
    requires rowId in RowIds(FindTab(tabs, active).value.data)
    ensures var (ts, _) := AfterInputChange(tabs, arrows, active, rowId, col, value);
      var edited := SetCell(FindRow(FindTab(tabs, active).value.data, rowId).value, col, value);
      forall i, k :: 0 <= i < |ts| && 0 <= k < |ts[i].incomingData| && ts[i].incomingData[k].id == rowId ==>
        ts[i].incomingData[k] == edited
  {
    var tab := FindTab(tabs, active).value;
    var saved := TabsPage.AfterUpdateTabData(tabs, arrows, Some(active), tab.id, EditedData(tab.data, rowId, col, value));
    var edited := SetCell(FindRow(tab.data, rowId).value, col, value);
    TabsPage.UpdateReplacesCopies(saved, arrows, edited);
  }

  /** The tabs and arrows after `deleteRow` of an existing own row: the rows
      without it are saved (and the active tab calculated), then its copies are
      removed everywhere. */
  function AfterDeleteRow(tabs: seq<Tab>, arrows: seq<Arrow>, active: Id, rowId: Id): (r: (seq<Tab>, seq<Arrow>))
    requires active in TabIds(tabs)
    requires rowId in RowIds(FindTab(tabs, active).value.data)
    ensures |r.0| == |tabs| && |r.1| == |arrows|
    ensures forall i :: 0 <= i < |tabs| ==> r.0[i].id == tabs[i].id && r.0[i].name == tabs[i].name
    ensures forall i :: 0 <= i < |tabs| && tabs[i].id != active ==> r.0[i].data == tabs[i].data
    ensures forall i :: 0 <= i < |tabs| && tabs[i].id == active ==>
      |r.0[i].data| == |RemoveById(FindTab(tabs, active).value.data, rowId)|
      && forall j :: 0 <= j < |r.0[i].data| ==> r.0[i].data[j].id != rowId
    ensures forall i, j :: 0 <= i < |tabs| && tabs[i].id == active && 0 <= j < |r.0[i].data| ==>
      var kept := RemoveById(FindTab(tabs, active).value.data, rowId)[j];
      r.0[i].data[j].id == kept.id && r.0[i].data[j].cells - {Col3} == kept.cells - {Col3}
  {
    var tab := FindTab(tabs, active).value;
    var saved := TabsPage.AfterUpdateTabData(tabs, arrows, Some(active), tab.id, RemoveById(tab.data, rowId));
    var row := FindRow(tab.data, rowId).value;
    DeletedRowGone(tabs, arrows, active, rowId, row);
    var r := TabsPage.Synchronised(saved, arrows, row, TabsPage.Delete);
    assert forall i :: 0 <= i < |tabs| ==> r.0[i].data == saved[i].data;
    r
  }

  /** `deleteRow` with the row's copies synchronised: the active tab's own
      rows are the rows without it, up to the recalculated `col3`. */
  lemma DeletedRowGone(tabs: seq<Tab>, arrows: seq<Arrow>, active: Id, rowId: Id, row: Row)
    requires active in TabIds(tabs)
    ensures var tab := FindTab(tabs, active).value;
      var newData := RemoveById(tab.data, rowId);
      var saved := TabsPage.AfterUpdateTabData(tabs, arrows, Some(active), tab.id, newData);
      var ts := TabsPage.Synchronised(saved, arrows, row, TabsPage.Delete).0;
      forall i :: 0 <= i < |tabs| && tabs[i].id == active ==>
        && |ts[i].data| == |newData|
        && (forall j :: 0 <= j < |ts[i].data| ==> ts[i].data[j].id != rowId)
        && (forall j :: 0 <= j < |ts[i].data| ==>
              ts[i].data[j].id == newData[j].id && ts[i].data[j].cells - {Col3} == newData[j].cells - {Col3})
  {
    var tab := FindTab(tabs, active).value;
    var newData := RemoveById(tab.data, rowId);
    var saved := TabsPage.AfterUpdateTabData(tabs, arrows, Some(active), tab.id, newData);
    var ts := TabsPage.Synchronised(saved, arrows, row, TabsPage.Delete).0;
    forall i | 0 <= i < |tabs| && tabs[i].id == active
      ensures && |ts[i].data| == |newData|
              && (forall j :: 0 <= j < |ts[i].data| ==> ts[i].data[j].id != rowId)
              && (forall j :: 0 <= j < |ts[i].data| ==>
                    ts[i].data[j].id == newData[j].id && ts[i].data[j].cells - {Col3} == newData[j].cells - {Col3})
    {
      TabsPage.UpdateTabDataEffect(tabs, arrows, active, newData, i);
      assert ts[i].data == saved[i].data;
      forall j | 0 <= j < |newData| ensures newData[j].id != rowId {
        assert newData[j].id in RowIds(newData);
      }
    }
  }

  /** After a delete, no tab holds an incoming copy of the row any more. */
  lemma DeleteRowRemovesCopies(tabs: seq<Tab>, arrows: seq<Arrow>, active: Id, rowId: Id)
    requires active in TabIds(tabs)
    requires rowId in RowIds(FindTab(tabs, active).value.data)
    ensures var (ts, _) := AfterDeleteRow(tabs, arrows, active, rowId);
      forall i :: 0 <= i < |ts| ==> rowId !in RowIds(ts[i].incomingData)
  {
    var tab := FindTab(tabs, active).value;
    var saved := TabsPage.AfterUpdateTabData(tabs, arrows, Some(active), tab.id, RemoveById(tab.data, rowId));
    var row := FindRow(tab.data, rowId).value;
    assert row.id == rowId;
    TabsPage.DeleteRemovesCopies(saved, arrows, row);
  }


  class TabTable {
    const page: TabsPage.TabsPage
    var newRow: Row

    constructor (page: TabsPage.TabsPage, initialId: Id)
      ensures this.page == page && newRow == EmptyRow(initialId)
    {
      this.page := page;
      newRow := EmptyRow(initialId);
    }

    /** The table is shown only for an active tab that exists. */
    predicate Shown()
      reads page, page.app
    {
      page.activeTab.Some? && page.activeTab.value in TabIds(page.app.tabs)
    }

    function CurrentTab(): Tab
      reads page, page.app
      requires Shown()
    {
      FindTab(page.app.tabs, page.activeTab.value).value
    }

    method HandleInputChange(rowId: Id, col: Column, value: string)
      requires Shown()
      modifies page.app`tabs, page.app`arrows
      ensures (page.app.tabs, page.app.arrows)
           == AfterInputChange(old(page.app.tabs), old(page.app.arrows), page.activeTab.value, rowId, col, value)
    {
      var tab := CurrentTab();
      var found := FindRow(tab.data, rowId);
      page.UpdateTabData(tab.id, EditedData(tab.data, rowId, col, value));
      if found.Some? {
        page.UpdateAllTabs(SetCell(found.value, col, value), TabsPage.Update);
      }
    }

    method HandleNewRowChange(col: Column, value: string)
      modifies this`newRow
      ensures newRow == SetCell(old(newRow), col, value)
    {
      newRow := SetCell(newRow, col, value);
    }

    /** `addNewRow`, `freshId` standing for the appended row's generated id and
        `nextId` for the id of the emptied form. The 'add' synchronisation
        changes nothing. */
    method AddNewRow(freshId: Id, nextId: Id)
      requires Shown()
      modifies page.app`tabs, page.app`arrows, this`newRow
      ensures page.app.tabs == TabsPage.AfterUpdateTabData(old(page.app.tabs), old(page.app.arrows), page.activeTab,
                                 old(CurrentTab()).id, AppendRow(old(CurrentTab()).data, old(newRow), freshId))
      ensures page.app.arrows == old(page.app.arrows)
      ensures newRow == EmptyRow(nextId)
    {
      var tab := CurrentTab();
      page.UpdateTabData(tab.id, AppendRow(tab.data, newRow, freshId));
      TabsPage.OtherActionIsNoOp(page.app.tabs, page.app.arrows, newRow);
      page.UpdateAllTabs(newRow, TabsPage.Other);
      newRow := EmptyRow(nextId);
    }

    /** `deleteRow` of a row the table shows. */
    method DeleteRow(rowId: Id)
      requires Shown() && rowId in RowIds(CurrentTab().data)
      modifies page.app`tabs, page.app`arrows
      ensures (page.app.tabs, page.app.arrows)
           == AfterDeleteRow(old(page.app.tabs), old(page.app.arrows), page.activeTab.value, rowId)
    {
      var tab := CurrentTab();
      var found := FindRow(tab.data, rowId).value;
      page.UpdateTabData(tab.id, RemoveById(tab.data, rowId));
      page.UpdateAllTabs(found, TabsPage.Delete);
    }

    /** The clean button asks for confirmation of cleaning the shown tab. */
    method ClickClean()
      requires Shown()
      modifies page.app`confirmation
      ensures page.app.confirmation == Some(App.CleanTabRequest(CurrentTab().id))
    {
      page.app.OpenConfirmation(App.CleanTabRequest(CurrentTab().id));
    }
  }
}
