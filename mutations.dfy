/** The graph-editing operations of `App` as pure transformations of the
    stored collections, and the well-formedness condition they keep: tab ids
    are distinct, there is exactly one position per tab, and every attached
    arrow end names an existing tab. */
module Mutations {
  import opened Basics
  import opened Entities
  import opened Propagation

  function TabId(t: Tab): Id { t.id }
  function PositionId(p: TabPosition): Id { p.id }

  predicate EndpointOk(tabs: seq<Tab>, e: Option<Id>) {
    e.None? || e.value in TabIds(tabs)
  }

  predicate ArrowsAttached(tabs: seq<Tab>, arrows: seq<Arrow>) {
    forall a :: a in arrows ==> EndpointOk(tabs, a.from) && EndpointOk(tabs, a.to)
  }

  /** The graph is well formed. */
  predicate Valid(g: Graph) {
    && DistinctBy(g.tabs, TabId)
    && DistinctBy(g.positions, PositionId)
    && PositionIds(g.positions) == TabIds(g.tabs)
    && ArrowsAttached(g.tabs, g.arrows)
  }

  /** Replacing the tab list by one with the same id at every index keeps the
      graph well formed. */
  lemma ValidWithSameTabIds(g: Graph, tabs: seq<Tab>)
    requires Valid(g)
    requires |tabs| == |g.tabs| && forall i :: 0 <= i < |tabs| ==> tabs[i].id == g.tabs[i].id
    ensures Valid(g.(tabs := tabs))
  {
    SameIdsSameTabIds(tabs, g.tabs);
    assert forall i :: 0 <= i < |tabs| ==> TabId(tabs[i]) == TabId(g.tabs[i]);
  }

  /** The name `addTab` gives the n-th tab: "Вкладка n". */
  function TabName(n: nat): string {
    "Вкладка " + NatToString(n)
  }

  /** `addTab`: one new empty tab named after the new tab count, and one
      position for it at (100 + 50 n, 100), n being the previous tab count. */
  function AddTab(g: Graph, freshId: Id): (r: Graph)
    ensures r.arrows == g.arrows
    ensures |r.tabs| == |g.tabs| + 1 && r.tabs[..|g.tabs|] == g.tabs
    ensures r.tabs[|g.tabs|] == Tab(freshId, TabName(|g.tabs| + 1), [], [])
    ensures |r.positions| == |g.positions| + 1 && r.positions[..|g.positions|] == g.positions
    ensures r.positions[|g.positions|] == TabPosition(freshId, 100 + |g.tabs| * 50, 100)
  {
    var newTab := Tab(freshId, TabName(|g.tabs| + 1), [], []);
    var newPosition := TabPosition(freshId, 100 + |g.tabs| * 50, 100);
    Graph(g.tabs + [newTab], g.arrows, g.positions + [newPosition])
  }

  /** A tab added with an id no tab or position has keeps the graph well formed. */
  lemma AddTabValid(g: Graph, freshId: Id)
    requires Valid(g)
    requires freshId !in TabIds(g.tabs)
    ensures Valid(AddTab(g, freshId))
  {
    var r := AddTab(g, freshId);
    assert TabIds(r.tabs) == TabIds(g.tabs) + {freshId} by {
      forall x | x in TabIds(r.tabs) ensures x in TabIds(g.tabs) + {freshId} {
        var i :| 0 <= i < |r.tabs| && r.tabs[i].id == x;
        if i < |g.tabs| { assert g.tabs[i] == r.tabs[i]; }
      }
      forall x | x in TabIds(g.tabs) ensures x in TabIds(r.tabs) {
        var i :| 0 <= i < |g.tabs| && g.tabs[i].id == x;
        assert r.tabs[i] == g.tabs[i];
      }
      assert r.tabs[|g.tabs|].id == freshId;
    }
    assert PositionIds(r.positions) == PositionIds(g.positions) + {freshId} by {
      forall x | x in PositionIds(r.positions) ensures x in PositionIds(g.positions) + {freshId} {
        var i :| 0 <= i < |r.positions| && r.positions[i].id == x;
        if i < |g.positions| { assert g.positions[i] == r.positions[i]; }
      }
      forall x | x in PositionIds(g.positions) ensures x in PositionIds(r.positions) {
        var i :| 0 <= i < |g.positions| && g.positions[i].id == x;
        assert r.positions[i] == g.positions[i];
      }
      assert r.positions[|g.positions|].id == freshId;
    }
    forall i, j | 0 <= i < j < |r.tabs| ensures TabId(r.tabs[i]) != TabId(r.tabs[j]) {
      if j == |g.tabs| {
        assert r.tabs[i] == g.tabs[i];
        assert g.tabs[i].id in TabIds(g.tabs);
      } else {
        assert r.tabs[i] == g.tabs[i] && r.tabs[j] == g.tabs[j];
      }
    }
    forall i, j | 0 <= i < j < |r.positions| ensures PositionId(r.positions[i]) != PositionId(r.positions[j]) {
      if j == |g.positions| {
        assert r.positions[i] == g.positions[i];
        assert g.positions[i].id in PositionIds(g.positions);
      } else {
        assert r.positions[i] == g.positions[i] && r.positions[j] == g.positions[j];
      }
    }
    forall a | a in r.arrows ensures EndpointOk(r.tabs, a.from) && EndpointOk(r.tabs, a.to) {
      assert EndpointOk(g.tabs, a.from) && EndpointOk(g.tabs, a.to);
    }
  }

  /** `renameTab`: every tab with the id takes the new name; nothing else changes. */
  function RenameTab(tabs: seq<Tab>, id: Id, newName: string): (r: seq<Tab>)
    ensures |r| == |tabs|
    ensures forall i :: 0 <= i < |tabs| ==>
      r[i].id == tabs[i].id && r[i].data == tabs[i].data && r[i].incomingData == tabs[i].incomingData
    ensures forall i :: 0 <= i < |tabs| ==> r[i].name == if tabs[i].id == id then newName else tabs[i].name
  {
    seq(|tabs|, i requires 0 <= i < |tabs| => if tabs[i].id == id then tabs[i].(name := newName) else tabs[i])
  }

  /** `updateTabData` (and `cleanTab` with no rows): every tab with the id takes
      the new own rows; names and incoming rows are untouched. */
  function SetTabData(tabs: seq<Tab>, id: Id, newData: seq<Row>): (r: seq<Tab>)
    ensures |r| == |tabs|
    ensures forall i :: 0 <= i < |tabs| ==>
      r[i].id == tabs[i].id && r[i].name == tabs[i].name && r[i].incomingData == tabs[i].incomingData
    ensures forall i :: 0 <= i < |tabs| ==> r[i].data == if tabs[i].id == id then newData else tabs[i].data
  {
    seq(|tabs|, i requires 0 <= i < |tabs| => if tabs[i].id == id then tabs[i].(data := newData) else tabs[i])
  }

  /** `cleanTab`: the own rows of every tab with the id are emptied; nothing
      else in any tab changes. */
  function CleanTab(tabs: seq<Tab>, id: Id): (r: seq<Tab>)
    ensures |r| == |tabs|
    ensures forall i :: 0 <= i < |r| && r[i].id == id ==> r[i].data == []
    ensures forall i :: 0 <= i < |tabs| ==> r[i] == if tabs[i].id == id then tabs[i].(data := []) else tabs[i]
  {
    SetTabData(tabs, id, [])
  }

  /** Replacing a tab's own rows keeps the graph well formed. */
  lemma SetTabDataValid(g: Graph, id: Id, newData: seq<Row>)
    requires Valid(g)
    ensures Valid(g.(tabs := SetTabData(g.tabs, id, newData)))
  {
    ValidWithSameTabIds(g, SetTabData(g.tabs, id, newData));
  }

  /** Editing a tab's own rows never changes what the recompute derives: the
      edit and the recompute commute. */
  lemma SetTabDataCommutesWithRecompute(tabs: seq<Tab>, arrows: seq<Arrow>, id: Id, newData: seq<Row>)
    ensures Recompute(SetTabData(tabs, id, newData), arrows) == SetTabData(Recompute(tabs, arrows), id, newData)
  {
    var edited := SetTabData(tabs, id, newData);
    SameIdsSameTabIds(edited, tabs);
    var lhs := Recompute(edited, arrows);
    var rhs := SetTabData(Recompute(tabs, arrows), id, newData);
    assert forall i :: 0 <= i < |tabs| ==> lhs[i] == rhs[i];
  }

  /** Renaming a tab and recomputing commute. */
  lemma RenameCommutesWithRecompute(tabs: seq<Tab>, arrows: seq<Arrow>, id: Id, newName: string)
    ensures Recompute(RenameTab(tabs, id, newName), arrows) == RenameTab(Recompute(tabs, arrows), id, newName)
  {
    var renamed := RenameTab(tabs, id, newName);
    SameIdsSameTabIds(renamed, tabs);
    var lhs := Recompute(renamed, arrows);
    var rhs := RenameTab(Recompute(tabs, arrows), id, newName);
    assert forall i :: 0 <= i < |tabs| ==> lhs[i] == rhs[i];
  }

  /** `deleteTab`: the tab, its position and every arrow leaving or entering it
      are removed; each list keeps its survivors in their original order. */
  function DeleteTab(g: Graph, id: Id): (r: Graph)
    ensures r.tabs == Filter(g.tabs, (t: Tab) => t.id != id)
    ensures r.positions == Filter(g.positions, (p: TabPosition) => p.id != id)
    ensures r.arrows == Filter(g.arrows, (a: Arrow) => a.from != Some(id) && a.to != Some(id))
    ensures id !in TabIds(r.tabs) && id !in PositionIds(r.positions)
    ensures forall t :: t in r.tabs <==> t in g.tabs && t.id != id
    ensures forall p :: p in r.positions <==> p in g.positions && p.id != id
    ensures forall a :: a in r.arrows <==> a in g.arrows && a.from != Some(id) && a.to != Some(id)
  {
    var tabKeep := (t: Tab) => t.id != id;
    var posKeep := (p: TabPosition) => p.id != id;
    var arrowKeep := (a: Arrow) => a.from != Some(id) && a.to != Some(id);
    var r := Graph(Filter(g.tabs, tabKeep), Filter(g.arrows, arrowKeep), Filter(g.positions, posKeep));
    forall t ensures t in r.tabs <==> t in g.tabs && t.id != id { FilterMember(g.tabs, tabKeep, t); }
    forall p ensures p in r.positions <==> p in g.positions && p.id != id { FilterMember(g.positions, posKeep, p); }
    forall a ensures a in r.arrows <==> a in g.arrows && a.from != Some(id) && a.to != Some(id) {
      FilterMember(g.arrows, arrowKeep, a);
    }
    r
  }

  lemma DeleteTabTabIds(g: Graph, id: Id)
    ensures TabIds(DeleteTab(g, id).tabs) == TabIds(g.tabs) - {id}
  {
    var r := DeleteTab(g, id);
    forall x | x in TabIds(r.tabs) ensures x in TabIds(g.tabs) - {id} {
      var i :| 0 <= i < |r.tabs| && r.tabs[i].id == x;
      assert r.tabs[i] in r.tabs;
      var j :| 0 <= j < |g.tabs| && g.tabs[j] == r.tabs[i];
    }
    forall x | x in TabIds(g.tabs) - {id} ensures x in TabIds(r.tabs) {
      var j :| 0 <= j < |g.tabs| && g.tabs[j].id == x;
      assert g.tabs[j] in r.tabs;
      var i :| 0 <= i < |r.tabs| && r.tabs[i] == g.tabs[j];
    }
  }

  lemma DeleteTabPositionIds(g: Graph, id: Id)
    ensures PositionIds(DeleteTab(g, id).positions) == PositionIds(g.positions) - {id}
  {
    var r := DeleteTab(g, id);
    forall x | x in PositionIds(r.positions) ensures x in PositionIds(g.positions) - {id} {
      var i :| 0 <= i < |r.positions| && r.positions[i].id == x;
      assert r.positions[i] in r.positions;
      var j :| 0 <= j < |g.positions| && g.positions[j] == r.positions[i];
    }
    forall x | x in PositionIds(g.positions) - {id} ensures x in PositionIds(r.positions) {
      var j :| 0 <= j < |g.positions| && g.positions[j].id == x;
      assert g.positions[j] in r.positions;
      var i :| 0 <= i < |r.positions| && r.positions[i] == g.positions[j];
    }
  }

  /** Deleting a tab keeps the graph well formed: no arrow is left pointing at it. */
  lemma DeleteTabValid(g: Graph, id: Id)
    requires Valid(g)
    ensures Valid(DeleteTab(g, id))
  {
    var r := DeleteTab(g, id);
    FilterDistinctBy(g.tabs, (t: Tab) => t.id != id, TabId);
    FilterDistinctBy(g.positions, (p: TabPosition) => p.id != id, PositionId);
    DeleteTabTabIds(g, id);
    DeleteTabPositionIds(g, id);
    forall a | a in r.arrows ensures EndpointOk(r.tabs, a.from) && EndpointOk(r.tabs, a.to) {
      assert a in g.arrows;
    }
  }

  /** `updateArrow`: every arrow with the id is replaced by `updated`. */
  function UpdateArrow(arrows: seq<Arrow>, arrowId: Id, updated: Arrow): (r: seq<Arrow>)
    ensures |r| == |arrows|
    ensures forall i :: 0 <= i < |arrows| ==> r[i] == if arrows[i].id == arrowId then updated else arrows[i]
  {
    seq(|arrows|, i requires 0 <= i < |arrows| => if arrows[i].id == arrowId then updated else arrows[i])
  }

  /** `updateArrowEnd`: only the first arrow with the id moves its end point,
      and only its end point; an unknown id changes nothing. */
  function UpdateArrowEnd(arrows: seq<Arrow>, arrowId: Id, endX: int, endY: int): (r: seq<Arrow>)
    ensures |r| == |arrows|
    ensures (forall j :: 0 <= j < |arrows| ==> arrows[j].id != arrowId) ==> r == arrows
    ensures forall k ::
      (0 <= k < |arrows| && arrows[k].id == arrowId && forall j :: 0 <= j < k ==> arrows[j].id != arrowId)
      ==> r == arrows[k := arrows[k].(endX := endX, endY := endY)]
    ensures forall k :: 0 <= k < |arrows| && r[k] != arrows[k] ==>
      arrows[k].id == arrowId && (forall j :: 0 <= j < k ==> arrows[j].id != arrowId)
      && r[k] == arrows[k].(endX := endX, endY := endY)
  {
    match FindArrowIndex(arrows, arrowId)
    case None => arrows
    case Some(k) => arrows[k := arrows[k].(endX := endX, endY := endY)]
  }

  /** Moving an arrow's end point keeps the graph well formed. */
  lemma UpdateArrowEndValid(g: Graph, arrowId: Id, endX: int, endY: int)
    requires Valid(g)
    ensures Valid(g.(arrows := UpdateArrowEnd(g.arrows, arrowId, endX, endY)))
  {
    var r := UpdateArrowEnd(g.arrows, arrowId, endX, endY);
    forall a | a in r ensures EndpointOk(g.tabs, a.from) && EndpointOk(g.tabs, a.to) {
      var i :| 0 <= i < |r| && r[i] == a;
      assert g.arrows[i] in g.arrows;
    }
  }

  /** `updateTabPosition`: every position with the id moves to (x, y). */
  function UpdateTabPosition(positions: seq<TabPosition>, id: Id, x: int, y: int): (r: seq<TabPosition>)
    ensures |r| == |positions|
    ensures forall i :: 0 <= i < |positions| ==> r[i].id == positions[i].id
    ensures forall i :: 0 <= i < |positions| && positions[i].id == id ==> r[i].x == x && r[i].y == y
    ensures forall i :: 0 <= i < |positions| && positions[i].id != id ==> r[i] == positions[i]
  {
    seq(|positions|, i requires 0 <= i < |positions| =>
      if positions[i].id == id then positions[i].(x := x, y := y) else positions[i])
  }

  /** Moving a tab keeps the graph well formed. */
  lemma UpdateTabPositionValid(g: Graph, id: Id, x: int, y: int)
    requires Valid(g)
    ensures Valid(g.(positions := UpdateTabPosition(g.positions, id, x, y)))
  {
    var ps := UpdateTabPosition(g.positions, id, x, y);
    assert forall i :: 0 <= i < |ps| ==> PositionId(ps[i]) == PositionId(g.positions[i]);
    assert PositionIds(ps) == PositionIds(g.positions) by {
      forall v | v in PositionIds(ps) ensures v in PositionIds(g.positions) {
        var i :| 0 <= i < |ps| && ps[i].id == v;
        assert g.positions[i].id == v;
      }
      forall v | v in PositionIds(g.positions) ensures v in PositionIds(ps) {
        var i :| 0 <= i < |g.positions| && g.positions[i].id == v;
        assert ps[i].id == v;
      }
    }
  }

  /** Replacing arrows by one whose ends are attached keeps the graph well formed. */
  lemma UpdateArrowValid(g: Graph, arrowId: Id, updated: Arrow)
    requires Valid(g)
    requires EndpointOk(g.tabs, updated.from) && EndpointOk(g.tabs, updated.to)
    ensures Valid(g.(arrows := UpdateArrow(g.arrows, arrowId, updated)))
  {
    var r := UpdateArrow(g.arrows, arrowId, updated);
    forall a | a in r ensures EndpointOk(g.tabs, a.from) && EndpointOk(g.tabs, a.to) {
      var i :| 0 <= i < |r| && r[i] == a;
      assert a == updated || a == g.arrows[i];
    }
  }

  /** `updateArrowData`: the arrows with the id are replaced, then the targeted
      update applies the new arrow's selection to its target tab. */
  function UpdateArrowData(g: Graph, arrowId: Id, updated: Arrow): (r: Graph)
    requires updated.selectedData.Some?
    ensures r.positions == g.positions
    ensures r.arrows == UpdateArrow(g.arrows, arrowId, updated)
    ensures r.tabs == ApplyArrowContribution(g.tabs, updated)
  {
    Graph(ApplyArrowContribution(g.tabs, updated), UpdateArrow(g.arrows, arrowId, updated), g.positions)
  }

  /** `deleteArrow` (which requires the arrow to exist): every arrow with the id
      is removed, the positions are unchanged, and the tabs keep their ids,
      names and own rows. */
  function DeleteArrow(g: Graph, arrowId: Id): (r: Graph)
    requires exists i :: 0 <= i < |g.arrows| && g.arrows[i].id == arrowId
    ensures r.positions == g.positions
    ensures r.arrows == Filter(g.arrows, (a: Arrow) => a.id != arrowId)
    ensures forall a :: a in r.arrows <==> a in g.arrows && a.id != arrowId
    ensures |r.tabs| == |g.tabs|
    ensures forall i :: 0 <= i < |g.tabs| ==>
      r.tabs[i].id == g.tabs[i].id && r.tabs[i].name == g.tabs[i].name && r.tabs[i].data == g.tabs[i].data
  {
    var k := FindArrowIndex(g.arrows, arrowId).value;
    var keep := (a: Arrow) => a.id != arrowId;
    var r := Graph(RemoveArrowData(g.tabs, g.arrows[k]), Filter(g.arrows, keep), g.positions);
    forall a ensures a in r.arrows <==> a in g.arrows && a.id != arrowId { FilterMember(g.arrows, keep, a); }
    r
  }

  /** The tab the first arrow with the id pointed to loses exactly the rows
      tagged with the id; every other tab is unchanged. */
  lemma DeleteArrowTabs(g: Graph, arrowId: Id)
    requires exists i :: 0 <= i < |g.arrows| && g.arrows[i].id == arrowId
    ensures var r := DeleteArrow(g, arrowId);
      exists k :: (0 <= k < |g.arrows| && g.arrows[k].id == arrowId
      && (forall j :: 0 <= j < k ==> g.arrows[j].id != arrowId)
      && (forall i :: 0 <= i < |g.tabs| && g.arrows[k].to != Some(g.tabs[i].id) ==> r.tabs[i] == g.tabs[i])
      && (forall i, n :: 0 <= i < |g.tabs| && g.arrows[k].to == Some(g.tabs[i].id) && 0 <= n < |r.tabs[i].incomingData|
            ==> r.tabs[i].incomingData[n].arrowId != Some(arrowId)))
    ensures var r := DeleteArrow(g, arrowId);
      forall i, x: Row :: 0 <= i < |g.tabs| && x.arrowId != Some(arrowId) ==>
        multiset(r.tabs[i].incomingData)[x] == multiset(g.tabs[i].incomingData)[x]
    ensures var r := DeleteArrow(g, arrowId);
      var k := FindArrowIndex(g.arrows, arrowId).value;
      forall i :: 0 <= i < |g.tabs| && g.arrows[k].to == Some(g.tabs[i].id) ==>
        r.tabs[i].incomingData == Untagged(g.tabs[i].incomingData, arrowId)
  {
    var k := FindArrowIndex(g.arrows, arrowId).value;
    assert DeleteArrow(g, arrowId).tabs == RemoveArrowData(g.tabs, g.arrows[k]);
  }

  /** Deleting an arrow keeps the graph well formed. */
  lemma DeleteArrowValid(g: Graph, arrowId: Id)
    requires Valid(g)
    requires exists i :: 0 <= i < |g.arrows| && g.arrows[i].id == arrowId
    ensures Valid(DeleteArrow(g, arrowId))
  {
    var r := DeleteArrow(g, arrowId);
    ValidWithSameTabIds(g, r.tabs);
    assert forall a :: a in r.arrows ==> a in g.arrows;
  }

  /** `resetData`: every collection is emptied. */
  function ResetData(): (r: Graph)
    ensures r.tabs == [] && r.arrows == [] && r.positions == []
    ensures Valid(r)
  {
    Graph([], [], [])
  }
}
