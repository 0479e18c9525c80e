/** The propagation engine of `App`: the full recompute of every tab's incoming
    rows from the arrows (`updateDependentData`), the targeted per-arrow update
    (`updateBlockDataBasedOnArrows`) and the removal of one arrow's rows
    (`removeArrowData`). All three are pure transformations of the tab list. */
module Propagation {
  import opened Basics
  import opened Entities

  /** The rows one arrow forwards: its selection (absent counts as empty) when
      its source names a known tab, nothing otherwise. */
  function Contribution(known: set<Id>, a: Arrow): seq<Row> {
    if a.from.Some? && a.from.value in known then SelectedOrEmpty(a) else []
  }

  /** The walk over the arrows for one tab: each arrow targeting `tabId` whose
      id is not yet in `visited` is marked visited and adds its contribution. */
  function Gather(known: set<Id>, arrows: seq<Arrow>, tabId: Id, visited: set<Id>): seq<Row>
    decreases |arrows|
  {
    if arrows == [] then []
    else
      var a := arrows[0];
      if a.to == Some(tabId) && a.id !in visited then
        Contribution(known, a) + Gather(known, arrows[1..], tabId, visited + {a.id})
      else
        Gather(known, arrows[1..], tabId, visited)
  }

  /** The incoming rows the full recompute gives tab `tabId`; the visited set
      starts empty for every tab. */
  function IncomingFor(tabs: seq<Tab>, arrows: seq<Arrow>, tabId: Id): (r: seq<Row>)
    ensures |r| <= |PlainIncoming(TabIds(tabs), arrows, tabId)|
  {
    GatherBound(TabIds(tabs), arrows, tabId, {});
    Gather(TabIds(tabs), arrows, tabId, {})
  }

  /** `updateDependentData`: every tab keeps its id, name and own rows, and its
      incoming rows are recomputed from the arrows. */
  function Recompute(tabs: seq<Tab>, arrows: seq<Arrow>): (r: seq<Tab>)
    ensures |r| == |tabs|
    ensures forall i :: 0 <= i < |tabs| ==>
      r[i].id == tabs[i].id && r[i].name == tabs[i].name && r[i].data == tabs[i].data
    ensures forall i :: 0 <= i < |tabs| ==> r[i].incomingData == IncomingFor(tabs, arrows, tabs[i].id)
  {
    seq(|tabs|, i requires 0 <= i < |tabs| =>
      tabs[i].(incomingData := IncomingFor(tabs, arrows, tabs[i].id)))
  }

  /** The recompute reads the tabs only through their ids: the previous incoming
      rows, names and own rows play no part. */
  lemma RecomputeSameIds(t1: seq<Tab>, t2: seq<Tab>, arrows: seq<Arrow>)
    requires |t1| == |t2|
    requires forall i :: 0 <= i < |t1| ==> t1[i].id == t2[i].id
    ensures forall i :: 0 <= i < |t1| ==>
      Recompute(t1, arrows)[i].incomingData == Recompute(t2, arrows)[i].incomingData
  {
    SameIdsSameTabIds(t1, t2);
  }

  /** Running the recompute twice gives the same tabs as running it once. */
  lemma RecomputeIdempotent(tabs: seq<Tab>, arrows: seq<Arrow>)
    ensures Recompute(Recompute(tabs, arrows), arrows) == Recompute(tabs, arrows)
  {
    var once := Recompute(tabs, arrows);
    SameIdsSameTabIds(once, tabs);
    var twice := Recompute(once, arrows);
    assert forall i :: 0 <= i < |tabs| ==> twice[i] == once[i];
  }

  /** Tabs that differ only in their incoming rows recompute to the same tabs. */
  lemma RecomputeIgnoresOldIncoming(t1: seq<Tab>, t2: seq<Tab>, arrows: seq<Arrow>)
    requires |t1| == |t2|
    requires forall i :: 0 <= i < |t1| ==> t1[i].(incomingData := []) == t2[i].(incomingData := [])
    ensures Recompute(t1, arrows) == Recompute(t2, arrows)
  {
    assert forall i :: 0 <= i < |t1| ==> t1[i].id == t1[i].(incomingData := []).id;
    SameIdsSameTabIds(t1, t2);
    var r1, r2 := Recompute(t1, arrows), Recompute(t2, arrows);
    forall i | 0 <= i < |t1| ensures r1[i] == r2[i] {
      assert t1[i].(incomingData := []).name == t2[i].(incomingData := []).name;
      assert t1[i].(incomingData := []).data == t2[i].(incomingData := []).data;
    }
  }

  /** The ids of the arrows in `arrows` that target `tabId`. */
  function TargetIds(arrows: seq<Arrow>, tabId: Id): set<Id> {
    set i | 0 <= i < |arrows| && arrows[i].to == Some(tabId) :: arrows[i].id
  }

  /** The target ids of a non-empty walk: the head's, then the tail's. */
  lemma TargetIdsCons(s: seq<Arrow>, tabId: Id)
    requires s != []
    ensures TargetIds(s, tabId)
         == TargetIds(s[1..], tabId) + (if s[0].to == Some(tabId) then {s[0].id} else {})
  {
    forall x | x in TargetIds(s, tabId)
      ensures x in TargetIds(s[1..], tabId) + (if s[0].to == Some(tabId) then {s[0].id} else {})
    {
      var i :| 0 <= i < |s| && s[i].to == Some(tabId) && s[i].id == x;
      if i > 0 { assert s[1..][i - 1] == s[i]; }
    }
    forall x | x in TargetIds(s[1..], tabId) ensures x in TargetIds(s, tabId) {
      var i :| 0 <= i < |s[1..]| && s[1..][i].to == Some(tabId) && s[1..][i].id == x;
      assert s[i + 1] == s[1..][i];
    }
  }

  /** The walk over a concatenation is the walk over the front part followed by
      the walk over the back part, which starts with every id the front part
      marked visited. */
  lemma {:induction false} GatherConcat(known: set<Id>, s1: seq<Arrow>, s2: seq<Arrow>, tabId: Id, visited: set<Id>)
    ensures Gather(known, s1 + s2, tabId, visited)
         == Gather(known, s1, tabId, visited) + Gather(known, s2, tabId, visited + TargetIds(s1, tabId))
  {
    if s1 == [] {
      assert s1 + s2 == s2;
      assert TargetIds(s1, tabId) == {};
      assert visited + TargetIds(s1, tabId) == visited;
    } else {
      var a := s1[0];
      assert (s1 + s2)[0] == a;
      assert (s1 + s2)[1..] == s1[1..] + s2;
      TargetIdsCons(s1, tabId);
      if a.to == Some(tabId) && a.id !in visited {
        GatherConcat(known, s1[1..], s2, tabId, visited + {a.id});
        assert visited + {a.id} + TargetIds(s1[1..], tabId) == visited + TargetIds(s1, tabId);
      } else {
        GatherConcat(known, s1[1..], s2, tabId, visited);
        assert visited + TargetIds(s1[1..], tabId) == visited + TargetIds(s1, tabId);
      }
    }
  }

  /** A walk that meets only already-visited target ids adds nothing. */
  lemma {:induction false} GatherAllVisited(known: set<Id>, arrows: seq<Arrow>, tabId: Id, visited: set<Id>)
    requires TargetIds(arrows, tabId) <= visited
    ensures Gather(known, arrows, tabId, visited) == []
  {
    if arrows != [] {
      assert TargetIds(arrows[1..], tabId) <= TargetIds(arrows, tabId) by {
        forall x | x in TargetIds(arrows[1..], tabId) ensures x in TargetIds(arrows, tabId) {
          var i :| 0 <= i < |arrows[1..]| && arrows[1..][i].to == Some(tabId) && arrows[1..][i].id == x;
          assert arrows[i + 1] == arrows[1..][i];
        }
      }
      if arrows[0].to == Some(tabId) {
        assert arrows[0].id in TargetIds(arrows, tabId);
      }
      GatherAllVisited(known, arrows[1..], tabId, visited);
    }
  }

  /** An arrow whose id already targeted the tab earlier in the list adds
      nothing: within one tab's recompute each arrow id contributes at most once. */
  lemma RepeatedArrowIgnored(tabs: seq<Tab>, arrows: seq<Arrow>, repeated: seq<Arrow>, tabId: Id)
    requires forall j :: 0 <= j < |repeated| && repeated[j].to == Some(tabId) ==>
               repeated[j].id in TargetIds(arrows, tabId)
    ensures IncomingFor(tabs, arrows + repeated, tabId) == IncomingFor(tabs, arrows, tabId)
  {
    GatherConcat(TabIds(tabs), arrows, repeated, tabId, {});
    GatherAllVisited(TabIds(tabs), repeated, tabId, {} + TargetIds(arrows, tabId));
  }

  /** The reference definition without de-duplication: every arrow targeting
      the tab contributes, in list order. */
  function PlainIncoming(known: set<Id>, arrows: seq<Arrow>, tabId: Id): seq<Row> {
    if arrows == [] then []
    else (if arrows[0].to == Some(tabId) then Contribution(known, arrows[0]) else [])
         + PlainIncoming(known, arrows[1..], tabId)
  }

  /** No two arrows targeting `tabId` share an id. */
  predicate DistinctTargetIds(arrows: seq<Arrow>, tabId: Id) {
    forall i, j :: 0 <= i < j < |arrows| && arrows[i].to == Some(tabId) && arrows[j].to == Some(tabId)
      ==> arrows[i].id != arrows[j].id
  }

  lemma {:induction false} GatherPlain(known: set<Id>, arrows: seq<Arrow>, tabId: Id, visited: set<Id>)
    requires DistinctTargetIds(arrows, tabId)
    requires TargetIds(arrows, tabId) !! visited
    ensures Gather(known, arrows, tabId, visited) == PlainIncoming(known, arrows, tabId)
  {
    if arrows != [] {
      var a := arrows[0];
      var rest := arrows[1..];
      assert DistinctTargetIds(rest, tabId) by {
        forall i, j | 0 <= i < j < |rest| && rest[i].to == Some(tabId) && rest[j].to == Some(tabId)
          ensures rest[i].id != rest[j].id
        {
          assert rest[i] == arrows[i + 1] && rest[j] == arrows[j + 1];
        }
      }
      var v' := if a.to == Some(tabId) then visited + {a.id} else visited;
      assert TargetIds(rest, tabId) !! v' by {
        forall x | x in TargetIds(rest, tabId) ensures x !in v' {
          var i :| 0 <= i < |rest| && rest[i].to == Some(tabId) && rest[i].id == x;
          assert arrows[i + 1] == rest[i];
          assert x in TargetIds(arrows, tabId);
          if a.to == Some(tabId) {
            assert a.id != arrows[i + 1].id;
          }
        }
      }
      if a.to == Some(tabId) {
        assert a.id in TargetIds(arrows, tabId);
      }
      GatherPlain(known, rest, tabId, v');
    }
  }

  /** When the arrows targeting a tab have distinct ids, the de-duplicating
      recompute agrees with the plain concatenation of their contributions. */
  lemma IncomingWithoutRepeats(tabs: seq<Tab>, arrows: seq<Arrow>, tabId: Id)
    requires DistinctTargetIds(arrows, tabId)
    ensures IncomingFor(tabs, arrows, tabId) == PlainIncoming(TabIds(tabs), arrows, tabId)
  {
    GatherPlain(TabIds(tabs), arrows, tabId, {});
  }

  /** Two arrows with distinct ids from existing tabs into the same tab: its
      incoming rows are the first selection followed by the second, so nothing
      is counted twice and the length is the sum of both. */
  lemma TwoArrowsIntoOneTab(tabs: seq<Tab>, a: Arrow, b: Arrow, tabId: Id)
    requires a.id != b.id
    requires a.to == Some(tabId) && b.to == Some(tabId)
    requires a.from.Some? && a.from.value in TabIds(tabs)
    requires b.from.Some? && b.from.value in TabIds(tabs)
    ensures IncomingFor(tabs, [a, b], tabId) == SelectedOrEmpty(a) + SelectedOrEmpty(b)
    ensures |IncomingFor(tabs, [a, b], tabId)| == |SelectedOrEmpty(a)| + |SelectedOrEmpty(b)|
  {
    var known := TabIds(tabs);
    assert [a, b][1..] == [b];
    assert [b][1..] == [];
    assert {} + {a.id} == {a.id};
    assert [a, b][0] == a;
    assert Gather(known, [b], tabId, {a.id}) == SelectedOrEmpty(b) + Gather(known, [], tabId, {a.id, b.id});
    assert Gather(known, [a, b], tabId, {}) == SelectedOrEmpty(a) + Gather(known, [b], tabId, {a.id});
  }

  /** Every incoming row comes from the selection of an arrow that targets the
      tab and whose source is an existing tab; dangling or unknown sources
      contribute nothing. */
  lemma {:induction false} IncomingSound(known: set<Id>, arrows: seq<Arrow>, tabId: Id, visited: set<Id>, k: nat)
    requires k < |Gather(known, arrows, tabId, visited)|
    ensures exists a :: a in arrows && a.to == Some(tabId) && a.from.Some? && a.from.value in known
                        && Gather(known, arrows, tabId, visited)[k] in SelectedOrEmpty(a)
  {
    var a := arrows[0];
    var g := Gather(known, arrows, tabId, visited);
    if a.to == Some(tabId) && a.id !in visited {
      var c := Contribution(known, a);
      var rest := Gather(known, arrows[1..], tabId, visited + {a.id});
      if k < |c| {
        assert g[k] == c[k];
      } else {
        assert g[k] == rest[k - |c|];
        IncomingSound(known, arrows[1..], tabId, visited + {a.id}, k - |c|);
        var b :| b in arrows[1..] && b.to == Some(tabId) && b.from.Some? && b.from.value in known
                 && rest[k - |c|] in SelectedOrEmpty(b);
        assert b in arrows;
      }
    } else {
      IncomingSound(known, arrows[1..], tabId, visited, k);
      var b :| b in arrows[1..] && b.to == Some(tabId) && b.from.Some? && b.from.value in known
               && Gather(known, arrows[1..], tabId, visited)[k] in SelectedOrEmpty(b);
      assert b in arrows;
    }
  }

  /** Skipping visited ids only ever drops contributions: the walk is never
      longer than the plain concatenation. */
  lemma {:induction false} GatherBound(known: set<Id>, arrows: seq<Arrow>, tabId: Id, visited: set<Id>)
    ensures |Gather(known, arrows, tabId, visited)| <= |PlainIncoming(known, arrows, tabId)|
    decreases |arrows|
  {
    if arrows != [] {
      var a := arrows[0];
      if a.to == Some(tabId) && a.id !in visited {
        GatherBound(known, arrows[1..], tabId, visited + {a.id});
      } else {
        GatherBound(known, arrows[1..], tabId, visited);
      }
    }
  }

  /** A tab that no arrow targets receives nothing. */
  lemma {:induction false} UntargetedTabGetsNothing(known: set<Id>, arrows: seq<Arrow>, tabId: Id, visited: set<Id>)
    requires forall a :: a in arrows ==> a.to != Some(tabId)
    ensures Gather(known, arrows, tabId, visited) == []
  {
    if arrows != [] {
      assert arrows[0] in arrows;
      UntargetedTabGetsNothing(known, arrows[1..], tabId, visited);
    }
  }

  /** `updateBlockDataBasedOnArrows`: the tab a non-null `to` names drops the
      rows tagged with this arrow and appends the arrow's selection tagged with
      its id; every other tab is untouched. */
  function ApplyArrowContribution(tabs: seq<Tab>, arrow: Arrow): (r: seq<Tab>)
    requires arrow.selectedData.Some?
    ensures |r| == |tabs|
    ensures arrow.to.None? ==> r == tabs
    ensures forall i :: 0 <= i < |tabs| && arrow.to != Some(tabs[i].id) ==> r[i] == tabs[i]
    ensures forall i :: 0 <= i < |tabs| && arrow.to == Some(tabs[i].id) ==>
      r[i].id == tabs[i].id && r[i].name == tabs[i].name && r[i].data == tabs[i].data
  {
    seq(|tabs|, i requires 0 <= i < |tabs| =>
      if arrow.to == Some(tabs[i].id) then
        tabs[i].(incomingData := Untagged(tabs[i].incomingData, arrow.id)
                                 + Tagged(arrow.selectedData.value, arrow.id))
      else tabs[i])
  }

  /** After the targeted update, the target's rows tagged with the arrow are
      exactly its selection, tagged, and its other rows are those it had before
      that were not tagged with the arrow, in their order. */
  lemma ApplyTargetRows(tabs: seq<Tab>, arrow: Arrow, i: nat)
    requires arrow.selectedData.Some?
    requires i < |tabs| && arrow.to == Some(tabs[i].id)
    ensures ApplyArrowContribution(tabs, arrow)[i].incomingData
         == Untagged(tabs[i].incomingData, arrow.id) + Tagged(arrow.selectedData.value, arrow.id)
    ensures TaggedWith(ApplyArrowContribution(tabs, arrow)[i].incomingData, arrow.id)
         == Tagged(arrow.selectedData.value, arrow.id)
    ensures Untagged(ApplyArrowContribution(tabs, arrow)[i].incomingData, arrow.id)
         == Untagged(tabs[i].incomingData, arrow.id)
  {
    RetagSplit(tabs[i].incomingData, arrow.selectedData.value, arrow.id);
  }

  /** Applying the same arrow twice is the same as applying it once. */
  lemma ApplyIdempotent(tabs: seq<Tab>, arrow: Arrow)
    requires arrow.selectedData.Some?
    ensures ApplyArrowContribution(ApplyArrowContribution(tabs, arrow), arrow)
         == ApplyArrowContribution(tabs, arrow)
  {
    var once := ApplyArrowContribution(tabs, arrow);
    var twice := ApplyArrowContribution(once, arrow);
    forall i | 0 <= i < |tabs| ensures twice[i] == once[i] {
      if arrow.to == Some(tabs[i].id) {
        RetagSplit(tabs[i].incomingData, arrow.selectedData.value, arrow.id);
      }
    }
  }

  /** `removeArrowData`: the tab the arrow's `to` names loses exactly the rows
      tagged with the arrow's id; every other tab is untouched. */
  function RemoveArrowData(tabs: seq<Tab>, arrow: Arrow): (r: seq<Tab>)
    ensures |r| == |tabs|
    ensures forall i :: 0 <= i < |tabs| && arrow.to != Some(tabs[i].id) ==> r[i] == tabs[i]
    ensures forall i :: 0 <= i < |tabs| && arrow.to == Some(tabs[i].id) ==>
      r[i].id == tabs[i].id && r[i].name == tabs[i].name && r[i].data == tabs[i].data
    ensures forall i, k :: 0 <= i < |tabs| && arrow.to == Some(tabs[i].id) && 0 <= k < |r[i].incomingData| ==>
      r[i].incomingData[k].arrowId != Some(arrow.id)
    ensures forall i, x: Row :: 0 <= i < |tabs| && x.arrowId != Some(arrow.id) ==>
      multiset(r[i].incomingData)[x] == multiset(tabs[i].incomingData)[x]
    ensures forall i :: 0 <= i < |tabs| && arrow.to == Some(tabs[i].id) ==>
      r[i].incomingData == Untagged(tabs[i].incomingData, arrow.id)
  {
    seq(|tabs|, i requires 0 <= i < |tabs| =>
      if arrow.to == Some(tabs[i].id) then
        tabs[i].(incomingData := Untagged(tabs[i].incomingData, arrow.id))
      else tabs[i])
  }

  /** Removing an arrow's rows undoes applying that arrow: the result is as if
      the arrow had never delivered anything. */
  lemma RemoveUndoesApply(tabs: seq<Tab>, arrow: Arrow)
    requires arrow.selectedData.Some?
    ensures RemoveArrowData(ApplyArrowContribution(tabs, arrow), arrow) == RemoveArrowData(tabs, arrow)
  {
    var applied := ApplyArrowContribution(tabs, arrow);
    var lhs := RemoveArrowData(applied, arrow);
    var rhs := RemoveArrowData(tabs, arrow);
    forall i | 0 <= i < |tabs| ensures lhs[i] == rhs[i] {
      if arrow.to == Some(tabs[i].id) {
        RetagSplit(tabs[i].incomingData, arrow.selectedData.value, arrow.id);
      }
    }
  }

  /** The full recompute and the targeted update do not agree: for one arrow
      forwarding one row, the targeted update tags the row with the arrow's id
      and the full recompute does not. */
  lemma TargetedDiffersFromFull()
    ensures var row := Row("r", map[], None);
            var arrow := Arrow("a", Some("s"), Some("t"), 0, 0, 0, 0, Some([row]), None);
            var tabs := [Tab("s", "", [row], []), Tab("t", "", [], [])];
            ApplyArrowContribution(tabs, arrow)[1].incomingData == [row.(arrowId := Some("a"))]
            && Recompute(tabs, [arrow])[1].incomingData == [row]
  {
    var row := Row("r", map[], None);
    var arrow := Arrow("a", Some("s"), Some("t"), 0, 0, 0, 0, Some([row]), None);
    var tabs := [Tab("s", "", [row], []), Tab("t", "", [], [])];
    assert "s" in TabIds(tabs) by { assert tabs[0].id == "s"; }
    assert [arrow][1..] == [];
    assert Untagged([], "a") == [];
  }
}
