/** The root component: the stored tabs, arrows and tab positions, the three
    dialogs it may show, and every handler it passes down. Each handler
    replaces the stored collections by the pure transformation that models it
    in `Propagation`, `Mutations` or `Aggregate`; setter callbacks run in
    sequence after the assignment they follow. */
module App {
  import opened Basics
  import opened Entities
  import opened Propagation
  import Mutations
  import Aggregate

  /** The action a confirmation dialog runs when the user confirms it. */
  datatype Request =
    | CleanTabRequest(tabId: Id)
    | DeleteTabRequest(tabId: Id)
    | DeleteArrowRequest(arrowId: Id)
    | ResetRequest

  predicate ArrowExists(arrows: seq<Arrow>, arrowId: Id) {
    exists i :: 0 <= i < |arrows| && arrows[i].id == arrowId
  }

  /** What a request may demand of the state it runs on: deleting an arrow
      needs the arrow to exist. */
  predicate Runnable(g: Graph, req: Request) {
    req.DeleteArrowRequest? ==> ArrowExists(g.arrows, req.arrowId)
  }

  /** The effect a confirmed request has on the stored collections: cleaning
      touches only the tab's own rows; deleting a tab is `deleteTab` (the tab,
      its position and the arrows at it are filtered out); deleting an arrow
      is `deleteArrow` (the arrow is filtered out and its target loses the
      rows it delivered); a reset empties everything. */
  function Perform(g: Graph, req: Request): (r: Graph)
    requires Runnable(g, req)
    ensures req.CleanTabRequest? ==>
      && r.arrows == g.arrows && r.positions == g.positions && |r.tabs| == |g.tabs|
      && forall i :: 0 <= i < |g.tabs| ==>
           r.tabs[i] == if g.tabs[i].id == req.tabId then g.tabs[i].(data := []) else g.tabs[i]
    ensures req.DeleteTabRequest? ==> req.tabId !in TabIds(r.tabs) && req.tabId !in PositionIds(r.positions)
    ensures req.DeleteTabRequest? ==> r == Mutations.DeleteTab(g, req.tabId)
    ensures req.DeleteArrowRequest? ==> forall a :: a in r.arrows ==> a.id != req.arrowId
    ensures req.DeleteArrowRequest? ==> r == Mutations.DeleteArrow(g, req.arrowId)
    ensures req.ResetRequest? ==> r == Graph([], [], [])
  {
    match req
    case CleanTabRequest(id) => g.(tabs := Mutations.CleanTab(g.tabs, id))
    case DeleteTabRequest(id) => Mutations.DeleteTab(g, id)
    case DeleteArrowRequest(id) => Mutations.DeleteArrow(g, id)
    case ResetRequest => Mutations.ResetData()
  }

  /** Every confirmable action keeps the graph well formed. */
  lemma PerformValid(g: Graph, req: Request)
    requires Mutations.Valid(g) && Runnable(g, req)
    ensures Mutations.Valid(Perform(g, req))
  {
    match req
    case CleanTabRequest(id) =>
      Mutations.ValidWithSameTabIds(g, Mutations.CleanTab(g.tabs, id));
    case DeleteTabRequest(id) =>
      Mutations.DeleteTabValid(g, id);
    case DeleteArrowRequest(id) =>
      Mutations.DeleteArrowValid(g, id);
    case ResetRequest =>
  }

  /** `openModalArrow`: the arrow shown in the dialog caches the incoming rows
      of its source tab, or nothing when the source is missing. */
  function ArrowForModal(tabs: seq<Tab>, arrow: Arrow): (r: Arrow)
    ensures r.(incomingData := arrow.incomingData) == arrow
    ensures r.incomingData.Some?
    ensures arrow.from.None? || arrow.from.value !in TabIds(tabs) ==> r.incomingData == Some([])
  {
    var source := if arrow.from.Some? then FindTab(tabs, arrow.from.value) else None;
    arrow.(incomingData := Some(if source.Some? then source.value.incomingData else []))
  }

  /** The own rows of the arrow's source tab that the dialog offers
      (`tabs.find(...)?.data || []`). */
  function BlockDataFor(tabs: seq<Tab>, arrow: Arrow): (r: seq<Row>)
    ensures arrow.from.None? || arrow.from.value !in TabIds(tabs) ==> r == []
  {
    var source := if arrow.from.Some? then FindTab(tabs, arrow.from.value) else None;
    if source.Some? then source.value.data else []
  }

  /** After a full recompute, the dialog of an arrow leaving an existing tab
      offers that tab's own rows and exactly the rows the arrows deliver to it. */
  lemma ModalSeesSource(tabs: seq<Tab>, arrows: seq<Arrow>, arrow: Arrow)
    requires arrow.from.Some? && arrow.from.value in TabIds(tabs)
    ensures var r := Recompute(tabs, arrows);
      && ArrowForModal(r, arrow).incomingData == Some(IncomingFor(tabs, arrows, arrow.from.value))
      && BlockDataFor(r, arrow) == FindTab(tabs, arrow.from.value).value.data
  {
    var r := Recompute(tabs, arrows);
    var id := arrow.from.value;
    SameIdsSameTabIds(r, tabs);
    var t := FindTab(r, id).value;
    var i :| 0 <= i < |r| && r[i] == t && forall j :: 0 <= j < i ==> r[j].id != id;
    var u := FindTab(tabs, id).value;
    var k :| 0 <= k < |tabs| && tabs[k] == u && forall j :: 0 <= j < k ==> tabs[j].id != id;
    assert r[i].id == tabs[i].id && r[k].id == tabs[k].id;
    assert i == k;
  }

  /** `getIncomingData`: walks the arrows once, marking each arrow that targets
      `tabId` as traversed the first time its id is seen and appending its
      selection when its source is one of `tabs`. */
  method GetIncomingData(tabs: seq<Tab>, arrows: seq<Arrow>, tabId: Id) returns (incoming: seq<Row>)
    ensures incoming == IncomingFor(tabs, arrows, tabId)
  {
    var known := TabIds(tabs);
    var traversed: set<Id> := {};
    incoming := [];
    var i := 0;
    while i < |arrows|
      invariant 0 <= i <= |arrows|
      invariant incoming + Gather(known, arrows[i..], tabId, traversed) == IncomingFor(tabs, arrows, tabId)
    {
      var arrow := arrows[i];
      assert arrows[i..][0] == arrow && arrows[i..][1..] == arrows[i + 1..];
      if arrow.to == Some(tabId) && arrow.id !in traversed {
        traversed := traversed + {arrow.id};
        var fromTab := if arrow.from.Some? then FindTab(tabs, arrow.from.value) else None;
        if fromTab.Some? {
          incoming := incoming + SelectedOrEmpty(arrow);
        }
      }
      i := i + 1;
    }
  }

  class App {
    var tabs: seq<Tab>
    var arrows: seq<Arrow>
    var tabPositions: seq<TabPosition>
    var modalTab: Option<Tab>
    var modalArrow: Option<Arrow>
    var confirmation: Option<Request>

    /** The stored collections. */
    function State(): Graph
      reads this
    {
      Graph(tabs, arrows, tabPositions)
    }

    /** Nothing stored and no dialog open. */
    constructor ()
      ensures tabs == [] && arrows == [] && tabPositions == []
      ensures modalTab.None? && modalArrow.None? && confirmation.None?
    {
      tabs := [];
      arrows := [];
      tabPositions := [];
      modalTab := None;
      modalArrow := None;
      confirmation := None;
    }

    /** `setTabs`: the stored tabs are replaced (the storage write is left out). */
    method SetTabs(newValue: seq<Tab>)
      modifies this`tabs
      ensures tabs == newValue
    {
      tabs := newValue;
    }

    /** `setArrows`: the stored arrows are replaced; a second argument is ignored. */
    method SetArrows(newValue: seq<Arrow>)
      modifies this`arrows
      ensures arrows == newValue
    {
      arrows := newValue;
    }

    method CleanTab(id: Id)
      modifies this`tabs
      ensures tabs == Mutations.CleanTab(old(tabs), id)
      ensures old(Mutations.Valid(State())) ==> Mutations.Valid(State())
    {
      if Mutations.Valid(State()) {
        Mutations.ValidWithSameTabIds(State(), Mutations.CleanTab(tabs, id));
      }
      tabs := Mutations.CleanTab(tabs, id);
    }

    /** `addTab`, `freshId` standing for the generated identifier. */
    method AddTab(freshId: Id)
      modifies this`tabs, this`tabPositions
      ensures State() == Mutations.AddTab(old(State()), freshId)
      ensures old(Mutations.Valid(State())) && freshId !in old(TabIds(tabs)) ==> Mutations.Valid(State())
    {
      var g := Mutations.AddTab(State(), freshId);
      if Mutations.Valid(State()) && freshId !in TabIds(tabs) {
        Mutations.AddTabValid(State(), freshId);
      }
      tabs := g.tabs;
      tabPositions := g.positions;
    }

    method RenameTab(id: Id, newName: string)
      modifies this`tabs
      ensures tabs == Mutations.RenameTab(old(tabs), id, newName)
      ensures old(Mutations.Valid(State())) ==> Mutations.Valid(State())
    {
      if Mutations.Valid(State()) {
        Mutations.ValidWithSameTabIds(State(), Mutations.RenameTab(tabs, id, newName));
      }
      tabs := Mutations.RenameTab(tabs, id, newName);
    }

    method DeleteTab(id: Id)
      modifies this`tabs, this`tabPositions, this`arrows
      ensures State() == Mutations.DeleteTab(old(State()), id)
      ensures old(Mutations.Valid(State())) ==> Mutations.Valid(State())
    {
      var g := Mutations.DeleteTab(State(), id);
      if Mutations.Valid(State()) {
        Mutations.DeleteTabValid(State(), id);
      }
      tabs := g.tabs;
      tabPositions := g.positions;
      arrows := g.arrows;
    }

    /** `updateArrow`: the setter drops the recompute callback, so only the
        arrows change. */
    method UpdateArrow(arrowId: Id, updated: Arrow)
      modifies this`arrows
      ensures arrows == Mutations.UpdateArrow(old(arrows), arrowId, updated)
      ensures old(Mutations.Valid(State()) && Mutations.ArrowsAttached(tabs, [updated])) ==> Mutations.Valid(State())
    {
      if Mutations.Valid(State()) && Mutations.ArrowsAttached(tabs, [updated]) {
        assert updated in [updated];
        Mutations.UpdateArrowValid(State(), arrowId, updated);
      }
      arrows := Mutations.UpdateArrow(arrows, arrowId, updated);
    }

    method UpdateTabPosition(id: Id, x: int, y: int)
      modifies this`tabPositions
      ensures tabPositions == Mutations.UpdateTabPosition(old(tabPositions), id, x, y)
      ensures old(Mutations.Valid(State())) ==> Mutations.Valid(State())
    {
      if Mutations.Valid(State()) {
        Mutations.UpdateTabPositionValid(State(), id, x, y);
      }
      tabPositions := Mutations.UpdateTabPosition(tabPositions, id, x, y);
    }

    /** `updateArrowEnd`: as for `updateArrow`, the recompute callback is dropped. */
    method UpdateArrowEnd(arrowId: Id, endX: int, endY: int)
      modifies this`arrows
      ensures arrows == Mutations.UpdateArrowEnd(old(arrows), arrowId, endX, endY)
      ensures old(Mutations.Valid(State())) ==> Mutations.Valid(State())
    {
      if Mutations.Valid(State()) {
        Mutations.UpdateArrowEndValid(State(), arrowId, endX, endY);
      }
      arrows := Mutations.UpdateArrowEnd(arrows, arrowId, endX, endY);
    }

    method OpenModalTab(tab: Tab)
      modifies this`modalTab
      ensures modalTab == Some(tab)
    {
      modalTab := Some(tab);
    }

    method CloseModalTab()
      modifies this`modalTab
      ensures modalTab.None?
    {
      modalTab := None;
    }

    method OpenModalArrow(arrow: Arrow)
      modifies this`modalArrow
      ensures modalArrow == Some(ArrowForModal(tabs, arrow))
    {
      modalArrow := Some(ArrowForModal(tabs, arrow));
    }

    method CloseModalArrow()
      modifies this`modalArrow
      ensures modalArrow.None?
    {
      modalArrow := None;
    }

    method OpenConfirmation(req: Request)
      modifies this`confirmation
      ensures confirmation == Some(req)
    {
      confirmation := Some(req);
    }

    method CloseConfirmation()
      modifies this`confirmation
      ensures confirmation.None?
    {
      confirmation := None;
    }

    /** `updateDependentData`: the incoming rows of every tab are cleared, then
        each tab receives what `getIncomingData` walks up for it. */
    method UpdateDependentData()
      modifies this`tabs
      ensures tabs == Recompute(old(tabs), arrows)
      ensures old(Mutations.Valid(State())) ==> Mutations.Valid(State())
    {
      var current := tabs;
      var cleared := seq(|current|, i requires 0 <= i < |current| => current[i].(incomingData := []));
      SameIdsSameTabIds(cleared, current);
      var updated: seq<Tab> := [];
      var i := 0;
      while i < |cleared|
        invariant 0 <= i <= |cleared| == |current|
        invariant tabs == current
        invariant |updated| == i
        invariant forall k :: 0 <= k < i ==> updated[k] == Recompute(current, arrows)[k]
      {
        var incoming := GetIncomingData(cleared, arrows, cleared[i].id);
        updated := updated + [cleared[i].(incomingData := incoming)];
        i := i + 1;
      }
      assert updated == Recompute(current, arrows);
      if Mutations.Valid(State()) {
        Mutations.ValidWithSameTabIds(State(), updated);
      }
      tabs := updated;
    }

    /** `updateBlockDataBasedOnArrows` (the arrow's selection must be present). */
    method UpdateBlockDataBasedOnArrows(arrow: Arrow)
      requires arrow.selectedData.Some?
      modifies this`tabs
      ensures tabs == ApplyArrowContribution(old(tabs), arrow)
      ensures old(Mutations.Valid(State())) ==> Mutations.Valid(State())
    {
      if Mutations.Valid(State()) {
        Mutations.ValidWithSameTabIds(State(), ApplyArrowContribution(tabs, arrow));
      }
      tabs := ApplyArrowContribution(tabs, arrow);
    }

    /** `updateArrowData`: the arrows are replaced, then the targeted update runs. */
    method UpdateArrowData(arrowId: Id, updated: Arrow)
      requires updated.selectedData.Some?
      modifies this`arrows, this`tabs
      ensures State() == Mutations.UpdateArrowData(old(State()), arrowId, updated)
      ensures old(Mutations.Valid(State()) && Mutations.ArrowsAttached(tabs, [updated])) ==> Mutations.Valid(State())
    {
      if Mutations.Valid(State()) && Mutations.ArrowsAttached(tabs, [updated]) {
        assert updated in [updated];
        Mutations.UpdateArrowValid(State(), arrowId, updated);
      }
      arrows := Mutations.UpdateArrow(arrows, arrowId, updated);
      UpdateBlockDataBasedOnArrows(updated);
    }

    /** `calculateTab`: when the tab exists its own rows are labelled, then the
        full recompute runs. */
    method CalculateTab(tabId: Id)
      modifies this`tabs
      ensures tabs == Aggregate.CalculateTab(old(tabs), arrows, tabId)
      ensures old(Mutations.Valid(State())) ==> Mutations.Valid(State())
    {
      var tab := FindTab(tabs, tabId);
      if tab.Some? {
        ghost var t0 := tabs;
        var newData := Aggregate.Labelled(tab.value);
        if Mutations.Valid(State()) {
          Mutations.SetTabDataValid(State(), tabId, newData);
        }
        tabs := Mutations.SetTabData(tabs, tabId, newData);
        UpdateDependentData();
        assert tabs == Propagation.Recompute(Mutations.SetTabData(t0, tabId, newData), arrows);
      }
    }

    method RemoveArrowData(arrow: Arrow)
      modifies this`tabs
      ensures tabs == Propagation.RemoveArrowData(old(tabs), arrow)
      ensures old(Mutations.Valid(State())) ==> Mutations.Valid(State())
    {
      if Mutations.Valid(State()) {
        Mutations.ValidWithSameTabIds(State(), Propagation.RemoveArrowData(tabs, arrow));
      }
      tabs := Propagation.RemoveArrowData(tabs, arrow);
    }

    /** `deleteArrow`: the arrows with the id go, the first one's rows are
        stripped from its target, and the arrow dialog closes. */
    method DeleteArrow(arrowId: Id)
      requires ArrowExists(arrows, arrowId)
      modifies this`arrows, this`tabs, this`modalArrow
      ensures State() == Mutations.DeleteArrow(old(State()), arrowId)
      ensures modalArrow.None?
      ensures old(Mutations.Valid(State())) ==> Mutations.Valid(State())
    {
      var deleted := arrows[FindArrowIndex(arrows, arrowId).value];
      var g := Mutations.DeleteArrow(State(), arrowId);
      assert g.tabs == Propagation.RemoveArrowData(tabs, deleted);
      assert g.positions == tabPositions;
      ghost var wasValid := Mutations.Valid(State());
      if wasValid {
        Mutations.DeleteArrowValid(State(), arrowId);
      }
      arrows := g.arrows;
      RemoveArrowData(deleted);
      assert State() == g;
      CloseModalArrow();
    }

    method UpdateTabData(tabId: Id, newData: seq<Row>)
      modifies this`tabs
      ensures tabs == Mutations.SetTabData(old(tabs), tabId, newData)
      ensures old(Mutations.Valid(State())) ==> Mutations.Valid(State())
    {
      if Mutations.Valid(State()) {
        Mutations.ValidWithSameTabIds(State(), Mutations.SetTabData(tabs, tabId, newData));
      }
      tabs := Mutations.SetTabData(tabs, tabId, newData);
    }

    method ResetData()
      modifies this`tabs, this`arrows, this`tabPositions
      ensures State() == Mutations.ResetData()
      ensures Mutations.Valid(State())
    {
      tabs := [];
      arrows := [];
      tabPositions := [];
    }

    /** The confirm button: the pending request runs, then the dialog closes. */
    method Confirm()
      requires confirmation.Some? && Runnable(State(), confirmation.value)
      modifies this`tabs, this`arrows, this`tabPositions, this`modalArrow, this`confirmation
      ensures State() == Perform(old(State()), old(confirmation.value))
      ensures modalArrow == if old(confirmation.value).DeleteArrowRequest? then None else old(modalArrow)
      ensures confirmation.None?
      ensures old(Mutations.Valid(State())) ==> Mutations.Valid(State())
    {
      if Mutations.Valid(State()) {
        PerformValid(State(), confirmation.value);
      }
      match confirmation.value {
        case CleanTabRequest(id) => CleanTab(id);
        case DeleteTabRequest(id) => DeleteTab(id);
        case DeleteArrowRequest(id) => DeleteArrow(id);
        case ResetRequest => ResetData();
      }
      CloseConfirmation();
    }
  }
}
