/** The arrow dialog: the candidate rows (the source tab's own rows followed by
    its incoming rows, de-duplicated by id the way a JavaScript `Map` keyed by
    id does it), the checkbox selection, the "select all" flag, and saving the
    selection into the arrow. */
module ModalArrow {
  import opened Basics
  import opened Entities
  import Mutations
  import App

  /** The distinct ids of `rows`, in the order they first occur (the key order
      of a `Map` filled from the rows). */
  function FirstIds(rows: seq<Row>): (ids: seq<Id>)
    ensures forall k :: 0 <= k < |ids| ==> ids[k] in RowIds(rows)
    ensures forall x :: x in RowIds(rows) ==> x in ids
    ensures forall k, l :: 0 <= k < l < |ids| ==> ids[k] != ids[l]
    decreases |rows|
  {
    if rows == [] then []
    else
      var front := rows[..|rows| - 1];
      var last := rows[|rows| - 1];
      assert rows == front + [last];
      RowIdsSnoc(front, last);
      var ids := FirstIds(front);
      if last.id in ids then ids else ids + [last.id]
  }

  /** The last row of `rows` with the id (the value a `Map` keeps for a key
      that is set several times). */
  function LastWith(rows: seq<Row>, id: Id): (r: Row)
    requires id in RowIds(rows)
    ensures r.id == id
    ensures exists i :: 0 <= i < |rows| && rows[i] == r && forall j :: i < j < |rows| ==> rows[j].id != id
    decreases |rows|
  {
    var front := rows[..|rows| - 1];
    var last := rows[|rows| - 1];
    assert rows == front + [last];
    RowIdsSnoc(front, last);
    if last.id == id then last
    else
      var r := LastWith(front, id);
      assert exists i :: 0 <= i < |rows| && rows[i] == r && forall j :: i < j < |rows| ==> rows[j].id != id by {
        var i :| 0 <= i < |front| && front[i] == r && forall j :: i < j < |front| ==> front[j].id != id;
        assert rows[i] == r;
      }
      r
  }

  /** `uniqueData`: one row per distinct id, in first-occurrence order, each
      being the last row seen with its id. */
  function UniqueData(rows: seq<Row>): (r: seq<Row>)
    ensures |r| == |FirstIds(rows)|
    ensures forall k :: 0 <= k < |r| ==> r[k].id == FirstIds(rows)[k]
  {
    var ids := FirstIds(rows);
    seq(|ids|, k requires 0 <= k < |ids| => LastWith(rows, ids[k]))
  }

  /** The de-duplicated rows have pairwise distinct ids, and every id of the
      candidate rows occurs among them exactly once. */
  lemma UniqueDataDistinct(rows: seq<Row>)
    ensures forall k, l :: 0 <= k < l < |UniqueData(rows)| ==> UniqueData(rows)[k].id != UniqueData(rows)[l].id
    ensures RowIds(UniqueData(rows)) == RowIds(rows)
  {
    var r := UniqueData(rows);
    var ids := FirstIds(rows);
    forall x | x in RowIds(r) ensures x in RowIds(rows) {
      var k :| 0 <= k < |r| && r[k].id == x;
      assert ids[k] == x;
    }
    forall x | x in RowIds(rows) ensures x in RowIds(r) {
      var k :| 0 <= k < |ids| && ids[k] == x;
      assert r[k].id == x;
    }
  }

  /** Each de-duplicated entry is the last candidate row with its id. */
  lemma UniqueDataKeepsLast(rows: seq<Row>, k: nat)
    requires k < |UniqueData(rows)|
    ensures exists i :: 0 <= i < |rows| && rows[i] == UniqueData(rows)[k]
                       && forall j :: i < j < |rows| ==> rows[j].id != UniqueData(rows)[k].id
  {
  }

  /** For entries k < l of the key order, every candidate row with the id of l
      is preceded by one with the id of k. */
  predicate OrderedByFirstOccurrence(rows: seq<Row>) {
    forall k, l, j :: 0 <= k < l < |FirstIds(rows)| && 0 <= j < |rows| && rows[j].id == FirstIds(rows)[l] ==>
      exists i :: 0 <= i < j && rows[i].id == FirstIds(rows)[k]
  }

  /** The key order after one more row: unchanged for a known id, extended at
      the end by a new one. */
  lemma FirstIdsSnoc(rows: seq<Row>)
    requires rows != []
    ensures var front := rows[..|rows| - 1];
      var id := rows[|rows| - 1].id;
      && (id in RowIds(front) ==> FirstIds(rows) == FirstIds(front))
      && (id !in RowIds(front) ==> FirstIds(rows) == FirstIds(front) + [id])
  {
  }

  /** One instance of the inductive step, for an entry l whose id occurs
      before the last row. */
  lemma FirstOccurrenceKnown(rows: seq<Row>, k: nat, l: nat, j: nat)
    requires rows != [] && OrderedByFirstOccurrence(rows[..|rows| - 1])
    requires k < l < |FirstIds(rows[..|rows| - 1])| && j < |rows|
    requires rows[j].id == FirstIds(rows[..|rows| - 1])[l]
    ensures exists i :: 0 <= i < j && rows[i].id == FirstIds(rows[..|rows| - 1])[k]
  {
    var front := rows[..|rows| - 1];
    var fids := FirstIds(front);
    assert fids[l] in RowIds(front);
    var j' := if j < |front| then j else var j' :| 0 <= j' < |front| && front[j'].id == fids[l]; j';
    assert front[j'].id == fids[l];
    var i :| 0 <= i < j' && front[i].id == fids[k];
    assert rows[i] == front[i];
  }

  /** One instance of the inductive step, for an entry l whose id is that of
      the last row only. */
  lemma FirstOccurrenceNew(rows: seq<Row>, k: nat, j: nat)
    requires rows != [] && k < |FirstIds(rows[..|rows| - 1])| && j < |rows|
    requires rows[j].id !in RowIds(rows[..|rows| - 1])
    ensures exists i :: 0 <= i < j && rows[i].id == FirstIds(rows[..|rows| - 1])[k]
  {
    var front := rows[..|rows| - 1];
    var fids := FirstIds(front);
    assert fids[k] in RowIds(front);
    var i :| 0 <= i < |front| && front[i].id == fids[k];
    var t := if j < |front| then j else i;
    assert front[t].id in RowIds(front);
    assert rows[i] == front[i];
  }

  /** The inductive step of `FirstOccurrenceOrder`: the property for all rows
      but the last gives it for all rows. */
  lemma FirstOccurrenceStep(rows: seq<Row>)
    requires rows != [] && OrderedByFirstOccurrence(rows[..|rows| - 1])
    ensures OrderedByFirstOccurrence(rows)
  {
    var front := rows[..|rows| - 1];
    FirstIdsSnoc(rows);
    forall k, l, j | 0 <= k < l < |FirstIds(rows)| && 0 <= j < |rows| && rows[j].id == FirstIds(rows)[l]
      ensures exists i :: 0 <= i < j && rows[i].id == FirstIds(rows)[k]
    {
      assert FirstIds(rows)[k] == FirstIds(front)[k];
      if l < |FirstIds(front)| {
        FirstOccurrenceKnown(rows, k, l, j);
      } else {
        FirstOccurrenceNew(rows, k, j);
      }
    }
  }

  /** The entries follow the first occurrences of their ids. */
  lemma {:induction false} FirstOccurrenceOrder(rows: seq<Row>)
    ensures OrderedByFirstOccurrence(rows)
    decreases |rows|
  {
    if rows != [] {
      FirstOccurrenceOrder(rows[..|rows| - 1]);
      FirstOccurrenceStep(rows);
    }
  }

  /** Setting one more row into the `Map`: a new id joins the end of the key
      order, and the row becomes the value kept for its id. */
  lemma UniqueStep(prefix: seq<Row>, row: Row)
    ensures RowIds(prefix + [row]) == RowIds(prefix) + {row.id}
    ensures FirstIds(prefix + [row]) == if row.id in RowIds(prefix) then FirstIds(prefix) else FirstIds(prefix) + [row.id]
    ensures forall id :: id in RowIds(prefix + [row]) ==>
      LastWith(prefix + [row], id) == if id == row.id then row else LastWith(prefix, id)
  {
    var s := prefix + [row];
    assert s[..|s| - 1] == prefix && s[|s| - 1] == row;
    RowIdsSnoc(prefix, row);
  }

  /** The `Map` built from `prefix`: its key order and its entries. */
  predicate Built(prefix: seq<Row>, keys: seq<Id>, entries: map<Id, Row>) {
    && keys == FirstIds(prefix)
    && entries.Keys == RowIds(prefix)
    && forall id :: id in entries ==> entries[id] == LastWith(prefix, id)
  }

  lemma BuiltStep(prefix: seq<Row>, row: Row, keys: seq<Id>, entries: map<Id, Row>)
    requires Built(prefix, keys, entries)
    ensures Built(prefix + [row], if row.id in entries then keys else keys + [row.id], entries[row.id := row])
  {
    var s := prefix + [row];
    var e := entries[row.id := row];
    UniqueStep(prefix, row);
    assert e.Keys == entries.Keys + {row.id};
    forall id | id in e ensures e[id] == LastWith(s, id) {
      if id != row.id {
        assert e[id] == entries[id];
      }
    }
  }

  /** Reading the values out in key order gives `UniqueData`. */
  lemma BuiltValues(rows: seq<Row>, keys: seq<Id>, entries: map<Id, Row>)
    requires Built(rows, keys, entries)
    ensures |keys| == |UniqueData(rows)|
    ensures forall k :: 0 <= k < |keys| ==> keys[k] in entries && entries[keys[k]] == UniqueData(rows)[k]
  {
  }

  /** The `Map` construction: each candidate row is set under its id, a new key
      going to the end of the key order; the values are then read out in key
      order. */
  method BuildUniqueData(combined: seq<Row>) returns (unique: seq<Row>)
    ensures unique == UniqueData(combined)
  {
    var keys: seq<Id> := [];
    var entries: map<Id, Row> := map[];
    var i := 0;
    while i < |combined|
      invariant 0 <= i <= |combined|
      invariant Built(combined[..i], keys, entries)
    {
      var row := combined[i];
      assert combined[..i + 1] == combined[..i] + [row];
      BuiltStep(combined[..i], row, keys, entries);
      if row.id !in entries {
        keys := keys + [row.id];
      }
      entries := entries[row.id := row];
      i := i + 1;
    }
    assert combined[..i] == combined;
    BuiltValues(combined, keys, entries);
    unique := seq(|keys|, k requires 0 <= k < |keys| => entries[keys[k]]);
  }

  /** `selectedRows.some(selected => selected.id === row.id)` */
  predicate IsSelected(selection: seq<Row>, row: Row) {
    row.id in RowIds(selection)
  }

  /** `handleRowSelection`'s new selection: a selected id is removed wherever it
      occurs, an unselected row is appended. */
  function Toggle(selection: seq<Row>, row: Row): (r: seq<Row>)
    ensures IsSelected(r, row) <==> !IsSelected(selection, row)
    ensures forall x: Row :: x.id != row.id ==> multiset(r)[x] == multiset(selection)[x]
    ensures IsSelected(selection, row) ==> r == Filter(selection, (x: Row) => x.id != row.id)
  {
    if IsSelected(selection, row) then RemoveById(selection, row.id)
    else
      RowIdsSnoc(selection, row);
      selection + [row]
  }

  /** An unselected row is appended at the end, and toggling it again restores
      the selection. */
  lemma ToggleTwice(selection: seq<Row>, row: Row)
    requires !IsSelected(selection, row)
    ensures Toggle(selection, row) == selection + [row]
    ensures Toggle(Toggle(selection, row), row) == selection
  {
    RowIdsSnoc(selection, row);
    RemoveByIdAppend(selection, row);
  }

  class ModalArrow {
    const app: App.App
    /** The arrow as the dialog received it, with its cached incoming rows. */
    const arrow: Arrow
    /** `uniqueData` of the source tab's own rows followed by its incoming rows. */
    const uniqueData: seq<Row>
    var selectedRows: seq<Row>
    var selectAll: bool

    /** The flag agrees with the selection, as the effect on `selectedRows`
        makes it. */
    predicate Synced()
      reads this
    {
      selectAll == (|selectedRows| == |uniqueData|)
    }

    /** The initial selection is the arrow's, or empty when it has none. */
    constructor (app: App.App, arrow: Arrow, blockData: seq<Row>, incomingData: seq<Row>)
      ensures this.app == app && this.arrow == arrow
      ensures uniqueData == UniqueData(blockData + incomingData)
      ensures selectedRows == SelectedOrEmpty(arrow) && !selectAll
    {
      var unique := BuildUniqueData(blockData + incomingData);
      this.app := app;
      this.arrow := arrow;
      uniqueData := unique;
      selectedRows := SelectedOrEmpty(arrow);
      selectAll := false;
    }

    /** The effect that recomputes the flag from the selection. */
    method SyncSelectAll()
      modifies this`selectAll
      ensures Synced()
    {
      selectAll := |selectedRows| == |uniqueData|;
    }

    method HandleRowSelection(row: Row)
      modifies this`selectedRows, this`selectAll
      ensures selectedRows == Toggle(old(selectedRows), row)
      ensures Synced()
    {
      var updated := Toggle(selectedRows, row);
      selectedRows := updated;
      selectAll := |updated| == |uniqueData|;
    }

    /** The "select all" checkbox: a set flag empties the selection, a clear one
        selects every candidate; the flag flips. With at least one candidate
        the flag then agrees with the selection. */
    method HandleSelectAllChange()
      modifies this`selectedRows, this`selectAll
      ensures selectedRows == if old(selectAll) then [] else uniqueData
      ensures selectAll == !old(selectAll)
      ensures |uniqueData| > 0 ==> Synced()
    {
      if selectAll {
        selectedRows := [];
      } else {
        selectedRows := uniqueData;
      }
      selectAll := !selectAll;
    }

    /** `handleSave`: the arrow is stored with the selection, the targeted update
        runs, and the dialog closes. */
    method HandleSave()
      modifies app`arrows, app`tabs, app`modalArrow
      ensures app.State() == Mutations.UpdateArrowData(old(app.State()), arrow.id, arrow.(selectedData := Some(selectedRows)))
      ensures app.modalArrow.None?
      ensures old(Mutations.Valid(app.State()) && Mutations.ArrowsAttached(app.tabs, [arrow])) ==> Mutations.Valid(app.State())
    {
      app.UpdateArrowData(arrow.id, arrow.(selectedData := Some(selectedRows)));
      app.CloseModalArrow();
    }

    /** The delete button asks for confirmation of the arrow's deletion. */
    method HandleDelete()
      modifies app`confirmation
      ensures app.confirmation == Some(App.DeleteArrowRequest(arrow.id))
    {
      app.OpenConfirmation(App.DeleteArrowRequest(arrow.id));
    }

    /** A mouse press outside the dialog closes it; one inside leaves it open. */
    method HandleClickOutside(insideDialog: bool)
      modifies app`modalArrow
      ensures insideDialog ==> app.modalArrow == old(app.modalArrow)
      ensures !insideDialog ==> app.modalArrow.None?
    {
      if !insideDialog {
        app.CloseModalArrow();
      }
    }
  }
}
