/** The tab-bar page: drag-and-drop reordering of the tabs, the active tab,
    saving a tab's own rows (followed by the calculate action on the active
    tab), and the synchronisation of an edited or deleted row into every copy
    the tabs and arrows hold. */
module TabsPage {
  import opened Basics
  import opened Entities
  import Mutations
  import Propagation
  import Aggregate
  import App

  /** `s` without its element at index `i`. */
  function Remove(s: seq<Tab>, i: nat): (r: seq<Tab>)
    requires i < |s|
    ensures |r| == |s| - 1
  {
    s[..i] + s[i + 1..]
  }

  /** `s` with `x` inserted before index `i`. */
  function Insert(s: seq<Tab>, i: nat, x: Tab): (r: seq<Tab>)
    requires i <= |s|
    ensures |r| == |s| + 1
  {
    s[..i] + [x] + s[i..]
  }

  /** Where `splice(to, 0, x)` inserts into a list of length `n`: an index past
      the end appends. */
  function Clamp(to: nat, n: nat): nat {
    if to <= n then to else n
  }

  /** The result of `moveTab(from, to)`: the tab at `from` is taken out, then
      inserted at `to` in what remains. */
  function Moved(s: seq<Tab>, from: nat, to: nat): (r: seq<Tab>)
    requires from < |s|
    ensures |r| == |s|
    ensures r[Clamp(to, |s| - 1)] == s[from]
  {
    var rest := Remove(s, from);
    Insert(rest, Clamp(to, |rest|), s[from])
  }

  /** The index in `s` of the element that `Moved(s, from, to)` holds at `i`. */
  function Source(from: nat, at: nat, i: nat): nat {
    if i == at then from
    else
      var j := if i < at then i else i - 1;
      if j < from then j else j + 1
  }

  lemma MovedAt(s: seq<Tab>, from: nat, to: nat)
    requires from < |s|
    ensures |Moved(s, from, to)| == |s|
    ensures forall i :: 0 <= i < |s| ==>
      Source(from, Clamp(to, |s| - 1), i) < |s| && Moved(s, from, to)[i] == s[Source(from, Clamp(to, |s| - 1), i)]
  {
    var rest := Remove(s, from);
    var at := Clamp(to, |rest|);
    var m := Moved(s, from, to);
    forall i | 0 <= i < |s| ensures Source(from, at, i) < |s| && m[i] == s[Source(from, at, i)] {
      if i < at {
        assert m[i] == rest[i];
      } else if i > at {
        assert m[i] == rest[i - 1];
      }
    }
  }

  /** `moveTab` only reorders: the result is a permutation of the tabs. */
  lemma MovedPermutation(s: seq<Tab>, from: nat, to: nat)
    requires from < |s|
    ensures |Moved(s, from, to)| == |s|
    ensures multiset(Moved(s, from, to)) == multiset(s)
  {
    var rest := Remove(s, from);
    var at := Clamp(to, |rest|);
    assert s == s[..from] + [s[from]] + s[from + 1..];
    assert rest == rest[..at] + rest[at..];
    calc {
      multiset(Moved(s, from, to));
      multiset(rest[..at]) + multiset([s[from]]) + multiset(rest[at..]);
      multiset(rest) + multiset([s[from]]);
      multiset(s[..from]) + multiset(s[from + 1..]) + multiset([s[from]]);
      multiset(s);
    }
  }

  /** The moved tab lands at the target index (the last index when the target
      lies past the end), and the other tabs keep their relative order. */
  lemma MovedPlacement(s: seq<Tab>, from: nat, to: nat)
    requires from < |s|
    ensures var at := Clamp(to, |s| - 1);
      && at < |Moved(s, from, to)|
      && Moved(s, from, to)[at] == s[from]
      && Remove(Moved(s, from, to), at) == Remove(s, from)
  {
    var rest := Remove(s, from);
    var at := Clamp(to, |rest|);
    var m := Moved(s, from, to);
    assert m[..at] == rest[..at];
    assert m[at + 1..] == rest[at..];
    assert rest == rest[..at] + rest[at..];
  }

  /** Reordering keeps the graph well formed. */
  lemma MovedValid(g: Graph, from: nat, to: nat)
    requires Mutations.Valid(g) && from < |g.tabs|
    ensures Mutations.Valid(g.(tabs := Moved(g.tabs, from, to)))
  {
    MovedDistinct(g.tabs, from, to);
    MovedTabIds(g.tabs, from, to);
  }

  lemma MovedDistinct(s: seq<Tab>, from: nat, to: nat)
    requires from < |s| && DistinctBy(s, Mutations.TabId)
    ensures DistinctBy(Moved(s, from, to), Mutations.TabId)
  {
    var m := Moved(s, from, to);
    var at := Clamp(to, |s| - 1);
    MovedAt(s, from, to);
    forall i, j | 0 <= i < j < |m| ensures Mutations.TabId(m[i]) != Mutations.TabId(m[j]) {
      var a, b := Source(from, at, i), Source(from, at, j);
      assert a != b;
      if a < b {
        assert Mutations.TabId(s[a]) != Mutations.TabId(s[b]);
      } else {
        assert Mutations.TabId(s[b]) != Mutations.TabId(s[a]);
      }
    }
  }

  lemma MovedTabIds(s: seq<Tab>, from: nat, to: nat)
    requires from < |s|
    ensures TabIds(Moved(s, from, to)) == TabIds(s)
  {
    var m := Moved(s, from, to);
    MovedPermutation(s, from, to);
    forall x | x in TabIds(m) ensures x in TabIds(s) {
      var i :| 0 <= i < |m| && m[i].id == x;
      assert m[i] in multiset(s);
      var k :| 0 <= k < |s| && s[k] == m[i];
    }
    forall x | x in TabIds(s) ensures x in TabIds(m) {
      var i :| 0 <= i < |s| && s[i].id == x;
      assert s[i] in multiset(m);
      var k :| 0 <= k < |m| && m[k] == s[i];
    }
  }

  /** `splice(from, 1)` on the array: the elements after `from` move one place
      left; the last slot keeps its old value. */
  method ShiftLeft(a: array<Tab>, from: nat)
    requires from < a.Length
    modifies a
    ensures a[..a.Length - 1] == old(a[..from]) + old(a[from + 1..])
    ensures a[a.Length - 1] == old(a[a.Length - 1])
  {
    var k := from;
    while k < a.Length - 1
      invariant from <= k <= a.Length - 1
      invariant forall j :: 0 <= j < from ==> a[j] == old(a[j])
      invariant forall j :: from <= j < k ==> a[j] == old(a[j + 1])
      invariant forall j :: k <= j < a.Length ==> a[j] == old(a[j])
    {
      a[k] := a[k + 1];
      k := k + 1;
    }
  }

  /** The room `splice(at, 0, x)` makes: the elements from `at` on move one
      place right, dropping the last one. */
  method ShiftRight(a: array<Tab>, at: nat)
    requires at < a.Length
    modifies a
    ensures a[..at] == old(a[..at])
    ensures a[at + 1..] == old(a[at..a.Length - 1])
  {
    var k := a.Length - 1;
    while k > at
      invariant at <= k <= a.Length - 1
      invariant forall j :: 0 <= j <= k ==> a[j] == old(a[j])
      invariant forall j :: k < j < a.Length ==> a[j] == old(a[j - 1])
    {
      a[k] := a[k - 1];
      k := k - 1;
    }
  }

  /** The splice pair `moveTab` runs on its copy of the tab list: the element at
      `from` is taken out, then put back at `to`. */
  method SpliceMove(tabs: seq<Tab>, from: nat, to: nat) returns (r: seq<Tab>)
    requires from < |tabs|
    ensures r == Moved(tabs, from, to)
  {
    var n := |tabs|;
    var a := new Tab[n](i requires 0 <= i < n => tabs[i]);
    assert a[..] == tabs;
    var moved := a[from];
    ShiftLeft(a, from);
    var rest := a[..n - 1];
    assert rest == Remove(tabs, from);
    var at := Clamp(to, n - 1);
    ShiftRight(a, at);
    assert a[..at] == rest[..at];
    assert a[at + 1..] == rest[at..];
    a[at] := moved;
    assert a[..at] == rest[..at];
    assert a[at + 1..] == rest[at..];
    assert a[..] == a[..at] + [moved] + a[at + 1..];
    r := a[..];
  }

  /** What `updateAllTabs` is asked to do with the row. Any action other than
      'update' and 'delete' (the table sends 'add') is `Other`. */
  datatype Action = Update | Delete | Other

  /** One list of copies: an edited row replaces every row with its id; a
      deleted row is replaced, then every row with its id is removed. */
  function SyncRows(rows: seq<Row>, row: Row, action: Action): (r: seq<Row>)
    ensures action == Update ==> |r| == |rows|
    ensures action == Update ==>
      forall k :: 0 <= k < |rows| ==> r[k] == if rows[k].id == row.id then row else rows[k]
    ensures action == Delete ==> r == RemoveById(rows, row.id)
    ensures action == Other ==> r == rows
  {
    match action
    case Update => ReplaceById(rows, row)
    case Delete =>
      RemoveAfterReplace(rows, row);
      RemoveById(ReplaceById(rows, row), row.id)
    case Other => rows
  }

  /** An optional list is rewritten only when present. */
  function SyncOptional(rows: Option<seq<Row>>, row: Row, action: Action): (r: Option<seq<Row>>)
    ensures r.Some? <==> rows.Some?
    ensures rows.Some? ==> r.value == SyncRows(rows.value, row, action)
  {
    if rows.Some? then Some(SyncRows(rows.value, row, action)) else None
  }

  /** The tab part of `updateAllTabs`: each tab's incoming rows are synchronised. */
  function SyncTabs(tabs: seq<Tab>, row: Row, action: Action): (r: seq<Tab>)
    ensures |r| == |tabs|
    ensures forall i :: 0 <= i < |tabs| ==>
      r[i] == tabs[i].(incomingData := SyncRows(tabs[i].incomingData, row, action))
  {
    seq(|tabs|, i requires 0 <= i < |tabs| =>
      if action == Other then tabs[i]
      else tabs[i].(incomingData := SyncRows(tabs[i].incomingData, row, action)))
  }

  /** The arrow part: arrows with a source synchronise their selection and
      their cached incoming rows; dangling-source arrows are left alone. */
  function SyncArrows(arrows: seq<Arrow>, row: Row, action: Action): (r: seq<Arrow>)
    ensures |r| == |arrows|
    ensures forall i :: 0 <= i < |arrows| ==>
      r[i] == if arrows[i].from.None? then arrows[i]
              else arrows[i].(incomingData := SyncOptional(arrows[i].incomingData, row, action),
                              selectedData := SyncOptional(arrows[i].selectedData, row, action))
  {
    seq(|arrows|, i requires 0 <= i < |arrows| =>
      var a := arrows[i];
      if a.from.None? || action == Other then a
      else a.(incomingData := SyncOptional(a.incomingData, row, action),
              selectedData := SyncOptional(a.selectedData, row, action)))
  }

  /** `updateAllTabs`: the new tabs and the new arrows. */
  function Synchronised(tabs: seq<Tab>, arrows: seq<Arrow>, row: Row, action: Action): (r: (seq<Tab>, seq<Arrow>))
    ensures |r.0| == |tabs| && |r.1| == |arrows|
    ensures forall i :: 0 <= i < |tabs| ==>
      r.0[i].id == tabs[i].id && r.0[i].name == tabs[i].name && r.0[i].data == tabs[i].data
    ensures forall i :: 0 <= i < |arrows| ==>
      r.1[i].(selectedData := None, incomingData := None) == arrows[i].(selectedData := None, incomingData := None)
  {
    (SyncTabs(tabs, row, action), SyncArrows(arrows, row, action))
  }

  /** An update replaces every incoming copy of the row and leaves lengths and
      every other row as they were. */
  lemma UpdateReplacesCopies(tabs: seq<Tab>, arrows: seq<Arrow>, row: Row)
    ensures var (ts, _) := Synchronised(tabs, arrows, row, Update);
      forall i :: 0 <= i < |tabs| ==>
        && ts[i].id == tabs[i].id && ts[i].name == tabs[i].name && ts[i].data == tabs[i].data
        && |ts[i].incomingData| == |tabs[i].incomingData|
        && forall k :: 0 <= k < |tabs[i].incomingData| ==>
             ts[i].incomingData[k] == if tabs[i].incomingData[k].id == row.id then row else tabs[i].incomingData[k]
  {
  }

  /** A delete removes every incoming copy of the row and keeps every other
      incoming row as often as before. */
  lemma DeleteRemovesCopies(tabs: seq<Tab>, arrows: seq<Arrow>, row: Row)
    ensures var (ts, _) := Synchronised(tabs, arrows, row, Delete);
      forall i :: 0 <= i < |tabs| ==>
        && ts[i].id == tabs[i].id && ts[i].data == tabs[i].data
        && ts[i].incomingData == RemoveById(tabs[i].incomingData, row.id)
        && row.id !in RowIds(ts[i].incomingData)
  {
    forall i | 0 <= i < |tabs| ensures SyncRows(tabs[i].incomingData, row, Delete) == RemoveById(tabs[i].incomingData, row.id) {
      RemoveAfterReplace(tabs[i].incomingData, row);
    }
  }

  /** Arrows without a source are untouched, and an absent selection or cache
      stays absent; in an arrow with a source, the selection and the cached
      incoming rows get the same rewrite as the tabs' copies. */
  lemma ArrowCopies(tabs: seq<Tab>, arrows: seq<Arrow>, row: Row, action: Action)
    ensures var (_, as') := Synchronised(tabs, arrows, row, action);
      forall i :: 0 <= i < |arrows| ==>
        && (arrows[i].from.None? ==> as'[i] == arrows[i])
        && as'[i].(selectedData := None, incomingData := None) == arrows[i].(selectedData := None, incomingData := None)
        && (as'[i].selectedData.Some? <==> arrows[i].selectedData.Some?)
        && (as'[i].incomingData.Some? <==> arrows[i].incomingData.Some?)
        && (arrows[i].from.Some? && arrows[i].selectedData.Some? ==>
              as'[i].selectedData.value == SyncRows(arrows[i].selectedData.value, row, action))
        && (arrows[i].from.Some? && arrows[i].incomingData.Some? ==>
              as'[i].incomingData.value == SyncRows(arrows[i].incomingData.value, row, action))
  {
  }

  /** Any other action changes nothing. */
  lemma OtherActionIsNoOp(tabs: seq<Tab>, arrows: seq<Arrow>, row: Row)
    ensures Synchronised(tabs, arrows, row, Other) == (tabs, arrows)
  {
    assert SyncTabs(tabs, row, Other) == tabs;
    assert SyncArrows(arrows, row, Other) == arrows;
  }

  /** The synchronisation keeps the graph well formed: ids and endpoints stay. */
  lemma UpdateAllTabsValid(g: Graph, row: Row, action: Action)
    requires Mutations.Valid(g)
    ensures var (ts, as') := Synchronised(g.tabs, g.arrows, row, action);
      Mutations.Valid(Graph(ts, as', g.positions))
  {
    var (ts, as') := Synchronised(g.tabs, g.arrows, row, action);
    Mutations.ValidWithSameTabIds(g, ts);
    SameIdsSameTabIds(ts, g.tabs);
    forall a | a in as' ensures Mutations.EndpointOk(ts, a.from) && Mutations.EndpointOk(ts, a.to) {
      var i :| 0 <= i < |as'| && as'[i] == a;
      assert g.arrows[i] in g.arrows;
    }
  }

  /** An update copies the edited own row, whose tag is absent, over an
      incoming copy tagged with the arrow that delivered it: removing that
      arrow's rows afterwards no longer removes the copy. */
  lemma EditedCopyLosesTag()
    ensures var copy := Row("r", map[], Some("a"));
      var edited := Row("r", map[Name := "x"], None);
      var arrow := Arrow("a", Some("s"), Some("t"), 0, 0, 0, 0, Some([copy]), None);
      var (ts, _) := Synchronised([Tab("t", "T", [], [copy])], [], edited, Update);
      Propagation.RemoveArrowData(ts, arrow)[0].incomingData == [edited]
  {
    var copy := Row("r", map[], Some("a"));
    var edited := Row("r", map[Name := "x"], None);
    var arrow := Arrow("a", Some("s"), Some("t"), 0, 0, 0, 0, Some([copy]), None);
    var (ts, _) := Synchronised([Tab("t", "T", [], [copy])], [], edited, Update);
    assert ts[0].incomingData == [edited];
  }

  /** The tabs after the page's `updateTabData`: the own rows are replaced, then
      the calculate action runs on the active tab (none while no tab is active). */
  function AfterUpdateTabData(tabs: seq<Tab>, arrows: seq<Arrow>, activeTab: Option<Id>, tabId: Id, newData: seq<Row>): (r: seq<Tab>)
    ensures |r| == |tabs|
    ensures forall i :: 0 <= i < |tabs| ==> r[i].id == tabs[i].id && r[i].name == tabs[i].name
    ensures activeTab.None? || activeTab.value !in TabIds(tabs) ==>
      forall i :: 0 <= i < |tabs| ==> r[i] == if tabs[i].id == tabId then tabs[i].(data := newData) else tabs[i]
    ensures forall i :: 0 <= i < |tabs| && tabs[i].id != tabId && activeTab != Some(tabs[i].id) ==>
      r[i].data == tabs[i].data
    ensures activeTab.Some? && activeTab.value in TabIds(tabs) ==>
      forall i :: 0 <= i < |tabs| ==> r[i].incomingData == Propagation.IncomingFor(tabs, arrows, tabs[i].id)
  {
    var edited := Mutations.SetTabData(tabs, tabId, newData);
    if activeTab.Some? then
      CalculateAfterEdit(tabs, arrows, activeTab.value, tabId, newData);
      Aggregate.CalculateTab(edited, arrows, activeTab.value)
    else edited
  }

  /** The calculate action on tab `a` after the own rows of `tabId` were
      replaced, stated against the tabs before the edit. */
  lemma CalculateAfterEdit(tabs: seq<Tab>, arrows: seq<Arrow>, a: Id, tabId: Id, newData: seq<Row>)
    ensures var edited := Mutations.SetTabData(tabs, tabId, newData);
      var r := Aggregate.CalculateTab(edited, arrows, a);
      && |r| == |tabs|
      && (forall i :: 0 <= i < |tabs| ==> r[i].id == tabs[i].id && r[i].name == tabs[i].name)
      && (a !in TabIds(tabs) ==> r == edited)
      && (forall i :: 0 <= i < |tabs| && tabs[i].id != tabId && tabs[i].id != a ==> r[i].data == tabs[i].data)
      && (a in TabIds(tabs) ==>
            forall i :: 0 <= i < |tabs| ==> r[i].incomingData == Propagation.IncomingFor(tabs, arrows, tabs[i].id))
  {
    var edited := Mutations.SetTabData(tabs, tabId, newData);
    SameIdsSameTabIds(edited, tabs);
    if a in TabIds(edited) {
      Aggregate.CalculateTabStructure(edited, arrows, a);
    }
  }

  /** With the edited tab active, its own rows end up as the new rows
      labelled with their shares (ids, tags and every cell but `col3` kept),
      the other tabs keep their own rows, and every tab's incoming rows are
      recomputed from the arrows. */
  lemma UpdateTabDataEffect(tabs: seq<Tab>, arrows: seq<Arrow>, tabId: Id, newData: seq<Row>, i: nat)
    requires tabId in TabIds(tabs)
    requires i < |tabs| && tabs[i].id == tabId
    ensures var r := AfterUpdateTabData(tabs, arrows, Some(tabId), tabId, newData);
      && |r[i].data| == |newData|
      && forall j :: 0 <= j < |newData| ==>
           && r[i].data[j].id == newData[j].id && r[i].data[j].arrowId == newData[j].arrowId
           && r[i].data[j].cells - {Col3} == newData[j].cells - {Col3}
    ensures var r := AfterUpdateTabData(tabs, arrows, Some(tabId), tabId, newData);
      r[i].data == Aggregate.Labelled(FindTab(Mutations.SetTabData(tabs, tabId, newData), tabId).value)
    ensures var r := AfterUpdateTabData(tabs, arrows, Some(tabId), tabId, newData);
      forall k :: 0 <= k < |tabs| && tabs[k].id != tabId ==> r[k].data == tabs[k].data
    ensures var r := AfterUpdateTabData(tabs, arrows, Some(tabId), tabId, newData);
      forall k :: 0 <= k < |tabs| ==> r[k].incomingData == Propagation.IncomingFor(tabs, arrows, tabs[k].id)
  {
    var edited := Mutations.SetTabData(tabs, tabId, newData);
    SameIdsSameTabIds(edited, tabs);
    Aggregate.CalculateTabStructure(edited, arrows, tabId);
    assert FindTab(edited, tabId).value.data == newData;
  }

  class TabsPage {
    const app: App.App
    /** `None` until a tab is clicked: the initial value 1 names no tab. */
    var activeTab: Option<Id>

    constructor (app: App.App)
      ensures this.app == app && activeTab.None?
    {
      this.app := app;
      activeTab := None;
    }

    /** `moveTab`: a copy of the tabs is spliced and stored. */
    method MoveTab(from: nat, to: nat)
      requires from < |app.tabs|
      modifies app`tabs
      ensures app.tabs == Moved(old(app.tabs), from, to)
      ensures old(Mutations.Valid(app.State())) ==> Mutations.Valid(app.State())
    {
      if Mutations.Valid(app.State()) {
        MovedValid(app.State(), from, to);
      }
      var tabs := SpliceMove(app.tabs, from, to);
      app.SetTabs(tabs);
    }

    method SetActiveTab(id: Id)
      modifies this`activeTab
      ensures activeTab == Some(id)
    {
      activeTab := Some(id);
    }

    /** `updateTabData`: the own rows are stored, then the active tab is calculated. */
    method UpdateTabData(tabId: Id, newData: seq<Row>)
      modifies app`tabs
      ensures app.tabs == AfterUpdateTabData(old(app.tabs), app.arrows, activeTab, tabId, newData)
      ensures old(Mutations.Valid(app.State())) ==> Mutations.Valid(app.State())
    {
      app.UpdateTabData(tabId, newData);
      if activeTab.Some? {
        app.CalculateTab(activeTab.value);
      }
    }

    /** `updateAllTabs`: the synchronised arrows are stored, then the tabs. */
    method UpdateAllTabs(row: Row, action: Action)
      modifies app`tabs, app`arrows
      ensures (app.tabs, app.arrows) == Synchronised(old(app.tabs), old(app.arrows), row, action)
      ensures old(Mutations.Valid(app.State())) ==> Mutations.Valid(app.State())
    {
      var (ts, as') := Synchronised(app.tabs, app.arrows, row, action);
      if Mutations.Valid(app.State()) {
        UpdateAllTabsValid(app.State(), row, action);
      }
      app.SetArrows(as');
      app.SetTabs(ts);
    }
  }
}
