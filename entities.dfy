/** The records the dataflow editor keeps: rows of component data, tabs holding
    their own rows and the rows arrows forward to them, arrows, and the layout
    position of each tab. Row-level lookups and rewrites used by several
    components live here too. */
module Entities {
  import opened Basics

  /** Tab, arrow and row identifiers (UUID strings). */
  type Id = string

  /** The named cells of a row. `Col2`/`Col3` are the cells the "calculate"
      action reads and writes. */
  datatype Column =
    | Name | Content | Moisture | Ash | CalorificValue | ExtractionCoefficient
    | Col2 | Col3

  /** A row: its id, its text cells (a cell that was never set is absent), and
      the id of the arrow that delivered it when it sits in a tab's incoming data. */
  datatype Row = Row(id: Id, cells: map<Column, string>, arrowId: Option<Id>)

  datatype Tab = Tab(id: Id, name: string, data: seq<Row>, incomingData: seq<Row>)

  /** An arrow from one tab to another; a `None` endpoint is a dangling end.
      `selectedData` is absent until the arrow's rows are first chosen, and
      `incomingData` caches the source tab's incoming rows once the arrow has
      been saved from its dialog. */
  datatype Arrow = Arrow(
    id: Id,
    from: Option<Id>,
    to: Option<Id>,
    startX: int, startY: int, endX: int, endY: int,
    selectedData: Option<seq<Row>>,
    incomingData: Option<seq<Row>>)

  datatype TabPosition = TabPosition(id: Id, x: int, y: int)

  /** The editor's persistent state: the three collections the application stores. */
  datatype Graph = Graph(tabs: seq<Tab>, arrows: seq<Arrow>, positions: seq<TabPosition>)

  /** `arrow.selectedData || []` */
  function SelectedOrEmpty(a: Arrow): seq<Row> {
    if a.selectedData.Some? then a.selectedData.value else []
  }

  function TabIds(tabs: seq<Tab>): set<Id> {
    set i | 0 <= i < |tabs| :: tabs[i].id
  }

  function PositionIds(positions: seq<TabPosition>): set<Id> {
    set i | 0 <= i < |positions| :: positions[i].id
  }

  function RowIds(rows: seq<Row>): set<Id> {
    set i | 0 <= i < |rows| :: rows[i].id
  }

  /** Two tab lists that agree on the id at every index have the same id set. */
  lemma SameIdsSameTabIds(a: seq<Tab>, b: seq<Tab>)
    requires |a| == |b|
    requires forall i :: 0 <= i < |a| ==> a[i].id == b[i].id
    ensures TabIds(a) == TabIds(b)
  {
    forall x | x in TabIds(a) ensures x in TabIds(b) {
      var i :| 0 <= i < |a| && a[i].id == x;
      assert b[i].id == x;
    }
    forall x | x in TabIds(b) ensures x in TabIds(a) {
      var i :| 0 <= i < |b| && b[i].id == x;
      assert a[i].id == x;
    }
  }

  /** `tabs.find(tab => tab.id === id)`: the first tab with that id. */
  function FindTab(tabs: seq<Tab>, id: Id): (r: Option<Tab>)
    ensures r.Some? <==> id in TabIds(tabs)
    ensures r.Some? ==> r.value in tabs && r.value.id == id
    ensures r.Some? ==> exists i :: 0 <= i < |tabs| && tabs[i] == r.value
                          && forall j :: 0 <= j < i ==> tabs[j].id != id
  {
    if tabs == [] then None
    else if tabs[0].id == id then Some(tabs[0])
    else
      var r := FindTab(tabs[1..], id);
      assert TabIds(tabs) == {tabs[0].id} + TabIds(tabs[1..]) by {
        forall x | x in TabIds(tabs) ensures x in {tabs[0].id} + TabIds(tabs[1..]) {
          var i :| 0 <= i < |tabs| && tabs[i].id == x;
          if i > 0 { assert tabs[1..][i - 1].id == x; }
        }
        forall x | x in TabIds(tabs[1..]) ensures x in TabIds(tabs) {
          var i :| 0 <= i < |tabs[1..]| && tabs[1..][i].id == x;
          assert tabs[i + 1].id == x;
        }
      }
      if r.Some? then
        assert exists i :: 0 <= i < |tabs| && tabs[i] == r.value
                             && forall j :: 0 <= j < i ==> tabs[j].id != id by {
          var k :| 0 <= k < |tabs[1..]| && tabs[1..][k] == r.value
                   && forall j :: 0 <= j < k ==> tabs[1..][j].id != id;
          assert tabs[k + 1] == r.value;
          forall j | 0 <= j < k + 1 ensures tabs[j].id != id {
            if j > 0 { assert tabs[j] == tabs[1..][j - 1]; }
          }
        }
        r
      else r
  }

  /** `arrows.findIndex(arrow => arrow.id === id)`, `None` standing for -1. */
  function FindArrowIndex(arrows: seq<Arrow>, id: Id): (r: Option<nat>)
    ensures r.Some? ==> r.value < |arrows| && arrows[r.value].id == id
    ensures r.Some? ==> forall j :: 0 <= j < r.value ==> arrows[j].id != id
    ensures r.None? ==> forall j :: 0 <= j < |arrows| ==> arrows[j].id != id
  {
    if arrows == [] then None
    else if arrows[0].id == id then Some(0)
    else
      match FindArrowIndex(arrows[1..], id)
      case None => None
      case Some(k) => Some(k + 1)
  }

  /** `rows.map(row => row.id === updated.id ? updated : row)` */
  function ReplaceById(rows: seq<Row>, updated: Row): (r: seq<Row>)
    ensures |r| == |rows|
    ensures forall i :: 0 <= i < |rows| && rows[i].id == updated.id ==> r[i] == updated
    ensures forall i :: 0 <= i < |rows| && rows[i].id != updated.id ==> r[i] == rows[i]
  {
    seq(|rows|, i requires 0 <= i < |rows| => if rows[i].id == updated.id then updated else rows[i])
  }

  /** `rows.filter(row => row.id !== id)` */
  function RemoveById(rows: seq<Row>, id: Id): (r: seq<Row>)
    ensures r == Filter(rows, (x: Row) => x.id != id)
    ensures id !in RowIds(r)
    ensures forall x: Row :: x.id != id ==> multiset(r)[x] == multiset(rows)[x]
  {
    var r := Filter(rows, (x: Row) => x.id != id);
    forall x: Row | x.id != id ensures multiset(r)[x] == multiset(rows)[x] {
      FilterMultiset(rows, (x: Row) => x.id != id, x);
    }
    r
  }

  /** Removing by id after replacing by the same id is plain removal. */
  lemma {:induction false} RemoveAfterReplace(rows: seq<Row>, updated: Row)
    ensures RemoveById(ReplaceById(rows, updated), updated.id) == RemoveById(rows, updated.id)
  {
    if rows != [] {
      var p := (x: Row) => x.id != updated.id;
      var rep := ReplaceById(rows, updated);
      assert rep == [rep[0]] + ReplaceById(rows[1..], updated);
      assert rows == [rows[0]] + rows[1..];
      FilterConcat([rep[0]], ReplaceById(rows[1..], updated), p);
      FilterConcat([rows[0]], rows[1..], p);
      RemoveAfterReplace(rows[1..], updated);
    }
  }

  /** Appending a row whose id is new and then removing that id gives the
      rows back. */
  lemma RemoveByIdAppend(rows: seq<Row>, x: Row)
    requires x.id !in RowIds(rows)
    ensures RemoveById(rows + [x], x.id) == rows
  {
    var id := x.id;
    var p := (x: Row) => x.id != id;
    FilterConcat(rows, [x], p);
    FilterAllPass(rows, p);
  }

  /** Appending one row adds its id to the id set. */
  lemma RowIdsSnoc(rows: seq<Row>, x: Row)
    ensures RowIds(rows + [x]) == RowIds(rows) + {x.id}
  {
    var s := rows + [x];
    forall v | v in RowIds(s) ensures v in RowIds(rows) + {x.id} {
      var i :| 0 <= i < |s| && s[i].id == v;
      if i < |rows| { assert rows[i].id == v; }
    }
    forall v | v in RowIds(rows) ensures v in RowIds(s) {
      var i :| 0 <= i < |rows| && rows[i].id == v;
      assert s[i].id == v;
    }
    assert s[|rows|].id == x.id;
  }

  /** `rows.map(row => ({ ...row, arrowId: aid }))` */
  function Tagged(rows: seq<Row>, aid: Id): (r: seq<Row>)
    ensures |r| == |rows|
    ensures forall i :: 0 <= i < |rows| ==> r[i].id == rows[i].id && r[i].cells == rows[i].cells
    ensures forall i :: 0 <= i < |r| ==> r[i].arrowId == Some(aid)
  {
    seq(|rows|, i requires 0 <= i < |rows| => rows[i].(arrowId := Some(aid)))
  }

  /** `rows.filter(row => row.arrowId !== aid)`: the rows some other arrow (or
      none) delivered. */
  function Untagged(rows: seq<Row>, aid: Id): (r: seq<Row>)
    ensures r == Filter(rows, (x: Row) => x.arrowId != Some(aid))
    ensures forall i :: 0 <= i < |r| ==> r[i].arrowId != Some(aid)
    ensures forall x: Row :: x.arrowId != Some(aid) ==> multiset(r)[x] == multiset(rows)[x]
    ensures (forall i :: 0 <= i < |rows| ==> rows[i].arrowId != Some(aid)) ==> r == rows
  {
    var r := Filter(rows, (x: Row) => x.arrowId != Some(aid));
    assert (forall i :: 0 <= i < |rows| ==> rows[i].arrowId != Some(aid)) ==> r == rows by {
      if forall i :: 0 <= i < |rows| ==> rows[i].arrowId != Some(aid) {
        FilterAllPass(rows, (x: Row) => x.arrowId != Some(aid));
      }
    }
    forall x: Row | x.arrowId != Some(aid) ensures multiset(r)[x] == multiset(rows)[x] {
      FilterMultiset(rows, (x: Row) => x.arrowId != Some(aid), x);
    }
    r
  }

  /** The rows delivered by arrow `aid`. */
  function TaggedWith(rows: seq<Row>, aid: Id): (r: seq<Row>)
    ensures forall i :: 0 <= i < |r| ==> r[i].arrowId == Some(aid)
  {
    Filter(rows, (x: Row) => x.arrowId == Some(aid))
  }

  /** Splitting by a tag: the `aid` rows of `Untagged(prior, aid) + Tagged(sel, aid)`
      are exactly `Tagged(sel, aid)`, and its other rows are exactly those of `prior`. */
  lemma RetagSplit(prior: seq<Row>, sel: seq<Row>, aid: Id)
    ensures TaggedWith(Untagged(prior, aid) + Tagged(sel, aid), aid) == Tagged(sel, aid)
    ensures Untagged(Untagged(prior, aid) + Tagged(sel, aid), aid) == Untagged(prior, aid)
  {
    var u := Untagged(prior, aid);
    var t := Tagged(sel, aid);
    FilterConcat(u, t, (x: Row) => x.arrowId == Some(aid));
    FilterConcat(u, t, (x: Row) => x.arrowId != Some(aid));
    FilterNonePass(u, (x: Row) => x.arrowId == Some(aid));
    FilterAllPass(t, (x: Row) => x.arrowId == Some(aid));
    FilterAllPass(u, (x: Row) => x.arrowId != Some(aid));
    FilterNonePass(t, (x: Row) => x.arrowId != Some(aid));
  }
}
