/** The canvas of tabs and arrows: dragging an arrow's end or its whole body
    with the mouse, attaching a released end to the tab under it, adding
    arrows and tabs, and pulling attached arrow ends along when a tab is
    dropped somewhere else. Where an end lands on a tab is decided by the
    rendered geometry of the tab, which is given here as a parameter. */
module DraggableTabs {
  import opened Basics
  import opened Entities
  import Mutations
  import App

  datatype Point = Point(x: int, y: int)

  /** The measured size of a rendered tab. */
  datatype Size = Size(width: int, height: int)

  /** Which end of which arrow is being dragged; `isEnd` is the head. */
  datatype DragEnd = DragEnd(arrowId: Id, isEnd: bool)

  /** `getNearestPointOnTab`: the attachment point of a tab chosen for a point,
      computed from the tab's rendered rectangle. */
  type NearestPoint = (TabPosition, Point) -> Point

  /** The size used for a tab that has not been measured. */
  const DefaultSize := Size(100, 50)

  function SizeOf(sizes: map<Id, Size>, id: Id): Size {
    if id in sizes then sizes[id] else DefaultSize
  }

  /** The rectangle of a tab, borders included, holds the point. */
  predicate Covers(pos: TabPosition, size: Size, pt: Point) {
    pos.x <= pt.x <= pos.x + size.width && pos.y <= pt.y <= pos.y + size.height
  }

  /** `getTabUnderCoords`: the index of the first tab position whose rectangle
      holds the point, if any. */
  function TabUnder(positions: seq<TabPosition>, sizes: map<Id, Size>, pt: Point): (r: Option<nat>)
    ensures r.Some? ==> r.value < |positions| && Covers(positions[r.value], SizeOf(sizes, positions[r.value].id), pt)
    ensures r.Some? ==> forall j :: 0 <= j < r.value ==> !Covers(positions[j], SizeOf(sizes, positions[j].id), pt)
    ensures r.None? ==> forall j :: 0 <= j < |positions| ==> !Covers(positions[j], SizeOf(sizes, positions[j].id), pt)
  {
    if positions == [] then None
    else if Covers(positions[0], SizeOf(sizes, positions[0].id), pt) then Some(0)
    else
      match TabUnder(positions[1..], sizes, pt)
      case None => None
      case Some(k) => Some(k + 1)
  }

  /** One mouse move while an end is dragged: that end moves by the cursor's
      displacement and is detached; the other end stays where and as it was. */
  function DragEndpoint(arrow: Arrow, isEnd: bool, dx: int, dy: int): (r: Arrow)
    ensures r.id == arrow.id && r.selectedData == arrow.selectedData && r.incomingData == arrow.incomingData
    ensures isEnd ==> (r.to.None? && r.from == arrow.from
      && (r.startX, r.startY) == (arrow.startX, arrow.startY) && (r.endX - arrow.endX, r.endY - arrow.endY) == (dx, dy))
    ensures !isEnd ==> (r.from.None? && r.to == arrow.to
      && (r.endX, r.endY) == (arrow.endX, arrow.endY) && (r.startX - arrow.startX, r.startY - arrow.startY) == (dx, dy))
  {
    if isEnd then arrow.(endX := arrow.endX + dx, endY := arrow.endY + dy, to := None)
    else arrow.(startX := arrow.startX + dx, startY := arrow.startY + dy, from := None)
  }

  /** One mouse move while the body is dragged: both ends move by the
      displacement, so the arrow keeps its direction and length, and both
      ends are detached. */
  function DragBody(arrow: Arrow, dx: int, dy: int): (r: Arrow)
    ensures r.id == arrow.id && r.selectedData == arrow.selectedData && r.incomingData == arrow.incomingData
    ensures r.from.None? && r.to.None?
    ensures (r.endX - r.startX, r.endY - r.startY) == (arrow.endX - arrow.startX, arrow.endY - arrow.startY)
    ensures (r.startX - arrow.startX, r.startY - arrow.startY) == (dx, dy)
  {
    arrow.(startX := arrow.startX + dx, startY := arrow.startY + dy,
           endX := arrow.endX + dx, endY := arrow.endY + dy, from := None, to := None)
  }

  /** Successive mouse moves of a dragged end, each by its displacement from
      the previous cursor position (the start of the drag first). */
  function DragAlong(arrow: Arrow, isEnd: bool, start: Point, path: seq<Point>): Arrow
    decreases |path|
  {
    if path == [] then arrow
    else DragAlong(DragEndpoint(arrow, isEnd, path[0].x - start.x, path[0].y - start.y), isEnd, path[0], path[1..])
  }

  /** However the cursor wanders, the dragged end ends up displaced by exactly
      the cursor's total displacement: the end follows the cursor. */
  lemma {:induction false} DragFollowsCursor(arrow: Arrow, isEnd: bool, start: Point, path: seq<Point>)
    requires path != []
    ensures DragAlong(arrow, isEnd, start, path)
         == DragEndpoint(arrow, isEnd, path[|path| - 1].x - start.x, path[|path| - 1].y - start.y)
    decreases |path|
  {
    var next := DragEndpoint(arrow, isEnd, path[0].x - start.x, path[0].y - start.y);
    if |path| > 1 {
      DragFollowsCursor(next, isEnd, path[0], path[1..]);
      assert path[1..][|path[1..]| - 1] == path[|path| - 1];
    }
  }

  /** The arrows after a mouse move by (dx, dy): an end drag takes precedence
      over a body drag; the first arrow with the dragged id supplies the
      moved copy, and every arrow with that id is replaced by it. */
  function MovedArrows(arrows: seq<Arrow>, draggingEnd: Option<DragEnd>, draggingBody: Option<Id>, dx: int, dy: int): (r: seq<Arrow>)
    ensures |r| == |arrows|
    ensures draggingEnd.None? && draggingBody.None? ==> r == arrows
    ensures forall i :: 0 <= i < |arrows| && r[i] != arrows[i] ==>
      if draggingEnd.Some? then arrows[i].id == draggingEnd.value.arrowId
      else draggingBody.Some? && arrows[i].id == draggingBody.value
  {
    if draggingEnd.Some? then
      match FindArrowIndex(arrows, draggingEnd.value.arrowId)
      case None => arrows
      case Some(k) =>
        Mutations.UpdateArrow(arrows, draggingEnd.value.arrowId, DragEndpoint(arrows[k], draggingEnd.value.isEnd, dx, dy))
    else if draggingBody.Some? then
      match FindArrowIndex(arrows, draggingBody.value)
      case None => arrows
      case Some(k) => Mutations.UpdateArrow(arrows, draggingBody.value, DragBody(arrows[k], dx, dy))
    else arrows
  }

  /** A mouse move changes only the arrows with the dragged id, each becoming
      the moved copy of the first of them; with no drag, or an unknown id,
      nothing changes. */
  lemma MoveChangesOnlyDragged(arrows: seq<Arrow>, draggingEnd: Option<DragEnd>, draggingBody: Option<Id>, dx: int, dy: int)
    ensures var r := MovedArrows(arrows, draggingEnd, draggingBody, dx, dy);
      var id := if draggingEnd.Some? then Some(draggingEnd.value.arrowId) else draggingBody;
      && |r| == |arrows|
      && (id.None? || FindArrowIndex(arrows, id.value).None? ==> r == arrows)
      && (id.Some? && FindArrowIndex(arrows, id.value).Some? ==>
            var first := arrows[FindArrowIndex(arrows, id.value).value];
            var moved := if draggingEnd.Some? then DragEndpoint(first, draggingEnd.value.isEnd, dx, dy) else DragBody(first, dx, dy);
            forall i :: 0 <= i < |arrows| ==> r[i] == if arrows[i].id == id.value then moved else arrows[i])
  {
  }

  /** A mouse move keeps the graph well formed: it only detaches ends. */
  lemma MovedArrowsValid(g: Graph, draggingEnd: Option<DragEnd>, draggingBody: Option<Id>, dx: int, dy: int)
    requires Mutations.Valid(g)
    ensures Mutations.Valid(g.(arrows := MovedArrows(g.arrows, draggingEnd, draggingBody, dx, dy)))
  {
    if draggingEnd.Some? {
      var k := FindArrowIndex(g.arrows, draggingEnd.value.arrowId);
      if k.Some? {
        assert g.arrows[k.value] in g.arrows;
        Mutations.UpdateArrowValid(g, draggingEnd.value.arrowId, DragEndpoint(g.arrows[k.value], draggingEnd.value.isEnd, dx, dy));
      }
    } else if draggingBody.Some? {
      var k := FindArrowIndex(g.arrows, draggingBody.value);
      if k.Some? {
        Mutations.UpdateArrowValid(g, draggingBody.value, DragBody(g.arrows[k.value], dx, dy));
      }
    }
  }

  /** The `setArrows` of `handleMouseUp`: every arrow with the dragged id gets
      the dragged end at `point`, attached to the tab. */
  function Reattach(arrows: seq<Arrow>, drag: DragEnd, tabId: Id, point: Point): (r: seq<Arrow>)
    ensures |r| == |arrows|
    ensures forall i :: 0 <= i < |arrows| && arrows[i].id != drag.arrowId ==> r[i] == arrows[i]
    ensures forall i :: 0 <= i < |arrows| && arrows[i].id == drag.arrowId && drag.isEnd ==>
      && r[i].to == Some(tabId) && Point(r[i].endX, r[i].endY) == point
      && r[i].(endX := arrows[i].endX, endY := arrows[i].endY, to := arrows[i].to) == arrows[i]
    ensures forall i :: 0 <= i < |arrows| && arrows[i].id == drag.arrowId && !drag.isEnd ==>
      && r[i].from == Some(tabId) && Point(r[i].startX, r[i].startY) == point
      && r[i].(startX := arrows[i].startX, startY := arrows[i].startY, from := arrows[i].from) == arrows[i]
  {
    seq(|arrows|, i requires 0 <= i < |arrows| =>
      var a := arrows[i];
      if a.id != drag.arrowId then a
      else if drag.isEnd then a.(endX := point.x, endY := point.y, to := Some(tabId))
      else a.(startX := point.x, startY := point.y, from := Some(tabId)))
  }

  /** The arrows after the mouse is released: when an end was being dragged
      and the first tab under that end of the first arrow with the id exists,
      the end is attached to it at the attachment point; otherwise nothing
      changes. A released body stays detached. */
  function Released(arrows: seq<Arrow>, positions: seq<TabPosition>, sizes: map<Id, Size>,
                    draggingEnd: Option<DragEnd>, nearest: NearestPoint): (r: seq<Arrow>)
    ensures |r| == |arrows|
    ensures draggingEnd.None? ==> r == arrows
    ensures forall i :: 0 <= i < |arrows| ==> r[i].id == arrows[i].id
    ensures forall i :: 0 <= i < |arrows| && r[i] != arrows[i] ==>
      draggingEnd.Some? && arrows[i].id == draggingEnd.value.arrowId
  {
    if draggingEnd.None? then arrows
    else
      var drag := draggingEnd.value;
      match FindArrowIndex(arrows, drag.arrowId)
      case None => arrows
      case Some(k) =>
        var a := arrows[k];
        var coords := if drag.isEnd then Point(a.endX, a.endY) else Point(a.startX, a.startY);
        match TabUnder(positions, sizes, coords)
        case None => arrows
        case Some(t) => Reattach(arrows, drag, positions[t].id, nearest(positions[t], coords))
  }

  /** A release over a tab attaches the dragged end of every arrow with the id
      to the first tab holding that end, at the attachment point, and changes
      nothing else; a release elsewhere changes nothing. */
  lemma ReleaseAttaches(arrows: seq<Arrow>, positions: seq<TabPosition>, sizes: map<Id, Size>, drag: DragEnd, nearest: NearestPoint)
    requires FindArrowIndex(arrows, drag.arrowId).Some?
    ensures var a := arrows[FindArrowIndex(arrows, drag.arrowId).value];
      var coords := if drag.isEnd then Point(a.endX, a.endY) else Point(a.startX, a.startY);
      var under := TabUnder(positions, sizes, coords);
      var r := Released(arrows, positions, sizes, Some(drag), nearest);
      && |r| == |arrows|
      && (under.None? ==> r == arrows)
      && (under.Some? ==> forall i :: 0 <= i < |arrows| ==>
            if arrows[i].id != drag.arrowId then r[i] == arrows[i]
            else if drag.isEnd then
              r[i].to == Some(positions[under.value].id)
              && Point(r[i].endX, r[i].endY) == nearest(positions[under.value], coords)
              && r[i].(endX := arrows[i].endX, endY := arrows[i].endY, to := arrows[i].to) == arrows[i]
            else
              r[i].from == Some(positions[under.value].id)
              && Point(r[i].startX, r[i].startY) == nearest(positions[under.value], coords)
              && r[i].(startX := arrows[i].startX, startY := arrows[i].startY, from := arrows[i].from) == arrows[i])
  {
  }

  /** A release keeps the graph well formed: a tab under the cursor is a
      tab of the graph. */
  lemma ReleasedValid(g: Graph, sizes: map<Id, Size>, draggingEnd: Option<DragEnd>, nearest: NearestPoint)
    requires Mutations.Valid(g)
    ensures Mutations.Valid(g.(arrows := Released(g.arrows, g.positions, sizes, draggingEnd, nearest)))
  {
    if draggingEnd.Some? {
      var drag := draggingEnd.value;
      var k := FindArrowIndex(g.arrows, drag.arrowId);
      if k.Some? {
        var a := g.arrows[k.value];
        var coords := if drag.isEnd then Point(a.endX, a.endY) else Point(a.startX, a.startY);
        var t := TabUnder(g.positions, sizes, coords);
        if t.Some? {
          var tabId := g.positions[t.value].id;
          assert tabId in PositionIds(g.positions);
          var r := Reattach(g.arrows, drag, tabId, nearest(g.positions[t.value], coords));
          forall b | b in r ensures Mutations.EndpointOk(g.tabs, b.from) && Mutations.EndpointOk(g.tabs, b.to) {
            var i :| 0 <= i < |r| && r[i] == b;
            assert g.arrows[i] in g.arrows;
          }
        }
      }
    }
  }

  /** The arrow `handleAddArrow` creates as the n-th: detached, offset by 50
      to the right per existing arrow, nothing selected. */
  function NewArrow(freshId: Id, n: nat): (r: Arrow)
    ensures r.id == freshId && r.from.None? && r.to.None?
    ensures r.selectedData.None? && r.incomingData.None?
    ensures (r.endX - r.startX, r.endY - r.startY) == (100, 100)
    ensures r.startX == 200 + 50 * n && r.startY == 200
  {
    Arrow(freshId, None, None, 200 + 50 * n, 200, 300 + 50 * n, 300, None, None)
  }

  /** `tabPositions.find(pos => pos.id === id)` */
  function PositionOf(positions: seq<TabPosition>, id: Id): (r: Option<TabPosition>)
    ensures r.Some? <==> id in PositionIds(positions)
    ensures r.Some? ==> r.value.id == id
  {
    if positions == [] then None
    else if positions[0].id == id then Some(positions[0])
    else
      var r := PositionOf(positions[1..], id);
      assert PositionIds(positions) == {positions[0].id} + PositionIds(positions[1..]) by {
        forall v | v in PositionIds(positions) ensures v in {positions[0].id} + PositionIds(positions[1..]) {
          var i :| 0 <= i < |positions| && positions[i].id == v;
          if i > 0 { assert positions[1..][i - 1].id == v; }
        }
        forall v | v in PositionIds(positions[1..]) ensures v in PositionIds(positions) {
          var i :| 0 <= i < |positions[1..]| && positions[1..][i].id == v;
          assert positions[i + 1].id == v;
        }
      }
      r
  }

  /** What `updateConnectedArrows` makes of one arrow when tab `tabId` (at
      `pos`) is dropped: an end attached to the tab moves to the attachment
      point chosen for the arrow's opposite end (the start's when the arrow
      leaves the tab, else the end's), and every attachment stays. */
  function Reattached(a: Arrow, tabId: Id, pos: TabPosition, nearest: NearestPoint): (r: Arrow)
    ensures r.id == a.id && r.from == a.from && r.to == a.to
    ensures r.selectedData == a.selectedData && r.incomingData == a.incomingData
    ensures a.from != Some(tabId) && a.to != Some(tabId) ==> r == a
    ensures a.from == Some(tabId) ==> Point(r.startX, r.startY) == nearest(pos, Point(a.endX, a.endY))
    ensures a.from != Some(tabId) ==> r.startX == a.startX && r.startY == a.startY
    ensures a.to == Some(tabId) && a.from == Some(tabId) ==> Point(r.endX, r.endY) == nearest(pos, Point(a.endX, a.endY))
    ensures a.to == Some(tabId) && a.from != Some(tabId) ==> Point(r.endX, r.endY) == nearest(pos, Point(a.startX, a.startY))
    ensures a.to != Some(tabId) ==> r.endX == a.endX && r.endY == a.endY
  {
    var opposite := if a.from == Some(tabId) then Point(a.endX, a.endY) else Point(a.startX, a.startY);
    var p := nearest(pos, opposite);
    var moved := if a.from == Some(tabId) then a.(startX := p.x, startY := p.y) else a;
    if a.to == Some(tabId) then moved.(endX := p.x, endY := p.y) else moved
  }

  /** The stored arrows after `updateArrow` was called, in order, for each
      arrow of `rest` attached to the tab. */
  function FollowTab(state: seq<Arrow>, rest: seq<Arrow>, tabId: Id, pos: TabPosition, nearest: NearestPoint): (r: seq<Arrow>)
    ensures |r| == |state|
    ensures forall i :: 0 <= i < |state| ==> r[i].id == state[i].id
    decreases |rest|
  {
    if rest == [] then state
    else
      var a := rest[0];
      var next := if a.from == Some(tabId) || a.to == Some(tabId)
        then Mutations.UpdateArrow(state, a.id, Reattached(a, tabId, pos, nearest))
        else state;
      FollowTab(next, rest[1..], tabId, pos, nearest)
  }

  /** The arrows after `updateConnectedArrows(tabId)` read `arrows` and
      `positions`: nothing changes when the tab has no position. */
  function Followed(arrows: seq<Arrow>, positions: seq<TabPosition>, tabId: Id, nearest: NearestPoint): (r: seq<Arrow>)
    ensures |r| == |arrows|
    ensures forall i :: 0 <= i < |arrows| ==> r[i].id == arrows[i].id
    ensures tabId !in PositionIds(positions) ==> r == arrows
  {
    match PositionOf(positions, tabId)
    case None => arrows
    case Some(pos) => FollowTab(arrows, arrows, tabId, pos, nearest)
  }

  /** Dropping a tab that no arrow is attached to leaves the arrows as they were. */
  lemma {:induction false} FollowTabUntouched(state: seq<Arrow>, rest: seq<Arrow>, tabId: Id, pos: TabPosition, nearest: NearestPoint)
    requires forall j :: 0 <= j < |rest| ==> rest[j].from != Some(tabId) && rest[j].to != Some(tabId)
    ensures FollowTab(state, rest, tabId, pos, nearest) == state
    decreases |rest|
  {
    if rest != [] {
      FollowTabUntouched(state, rest[1..], tabId, pos, nearest);
    }
  }

  lemma FollowedUntouched(arrows: seq<Arrow>, positions: seq<TabPosition>, tabId: Id, nearest: NearestPoint)
    requires forall j :: 0 <= j < |arrows| ==> arrows[j].from != Some(tabId) && arrows[j].to != Some(tabId)
    ensures Followed(arrows, positions, tabId, nearest) == arrows
  {
    if tabId in PositionIds(positions) {
      FollowTabUntouched(arrows, arrows, tabId, PositionOf(positions, tabId).value, nearest);
    }
  }

  /** Helper for `FollowTabPointwise`: once the first `i` arrows are
      reattached, the remaining calls reattach the rest. */
  lemma {:induction false} FollowTabFrom(state: seq<Arrow>, snapshot: seq<Arrow>, i: nat, tabId: Id, pos: TabPosition, nearest: NearestPoint)
    requires i <= |snapshot| == |state|
    requires forall j, k :: 0 <= j < k < |snapshot| ==> snapshot[j].id != snapshot[k].id
    requires forall j :: 0 <= j < i ==> state[j] == Reattached(snapshot[j], tabId, pos, nearest)
    requires forall j :: i <= j < |snapshot| ==> state[j] == snapshot[j]
    ensures var r := FollowTab(state, snapshot[i..], tabId, pos, nearest);
      |r| == |snapshot| && forall j :: 0 <= j < |snapshot| ==> r[j] == Reattached(snapshot[j], tabId, pos, nearest)
    decreases |snapshot| - i
  {
    if i < |snapshot| {
      var a := snapshot[i];
      assert snapshot[i..][0] == a && snapshot[i..][1..] == snapshot[i + 1..];
      var next := if a.from == Some(tabId) || a.to == Some(tabId)
        then Mutations.UpdateArrow(state, a.id, Reattached(a, tabId, pos, nearest))
        else state;
      assert |next| == |state|;
      forall j | 0 <= j < |snapshot| && j != i ensures state[j].id != a.id {
        if j < i {
          assert snapshot[j].id != snapshot[i].id;
        } else {
          assert snapshot[i].id != snapshot[j].id;
        }
      }
      assert next[i] == Reattached(a, tabId, pos, nearest);
      FollowTabFrom(next, snapshot, i + 1, tabId, pos, nearest);
    }
  }

  /** With distinct arrow ids (generated ids are), dropping a tab reattaches
      each arrow on its own: the sequence of updates amounts to mapping
      `Reattached` over the arrows. */
  lemma FollowTabPointwise(arrows: seq<Arrow>, positions: seq<TabPosition>, tabId: Id, nearest: NearestPoint)
    requires forall j, k :: 0 <= j < k < |arrows| ==> arrows[j].id != arrows[k].id
    requires tabId in PositionIds(positions)
    ensures var r := Followed(arrows, positions, tabId, nearest);
      |r| == |arrows| && forall j :: 0 <= j < |arrows| ==> r[j] == Reattached(arrows[j], tabId, PositionOf(positions, tabId).value, nearest)
  {
    FollowTabFrom(arrows, arrows, 0, tabId, PositionOf(positions, tabId).value, nearest);
  }

  class DraggableTabs {
    const app: App.App
    var draggingEnd: Option<DragEnd>
    var draggingBody: Option<Id>
    var startDragX: int
    var startDragY: int
    var tabSizes: map<Id, Size>

    /** Nothing dragged and no tab measured. */
    constructor (app: App.App)
      ensures this.app == app
      ensures draggingEnd.None? && draggingBody.None?
      ensures startDragX == 0 && startDragY == 0 && tabSizes == map[]
    {
      this.app := app;
      draggingEnd := None;
      draggingBody := None;
      startDragX := 0;
      startDragY := 0;
      tabSizes := map[];
    }

    method UpdateTabSize(tabId: Id, size: Size)
      modifies this`tabSizes
      ensures tabSizes == old(tabSizes)[tabId := size]
    {
      tabSizes := tabSizes[tabId := size];
    }

    /** Mouse press on an arrow's line: its body is dragged from the cursor. */
    method BeginDragBody(arrowId: Id, clientX: int, clientY: int)
      modifies this`draggingBody, this`startDragX, this`startDragY
      ensures draggingBody == Some(arrowId)
      ensures startDragX == clientX && startDragY == clientY
    {
      draggingBody := Some(arrowId);
      startDragX := clientX;
      startDragY := clientY;
    }

    /** Mouse press on an arrow's tail (`isEnd` false) or head circle. */
    method BeginDragEnd(arrowId: Id, isEnd: bool, clientX: int, clientY: int)
      modifies this`draggingEnd, this`startDragX, this`startDragY
      ensures draggingEnd == Some(DragEnd(arrowId, isEnd))
      ensures startDragX == clientX && startDragY == clientY
    {
      draggingEnd := Some(DragEnd(arrowId, isEnd));
      startDragX := clientX;
      startDragY := clientY;
    }

    /** The `updateArrow` call of a mouse move: the dragged end, or the whole
        dragged arrow, moves by (dx, dy). */
    method MoveDragged(dx: int, dy: int)
      modifies app`arrows
      ensures app.arrows == MovedArrows(old(app.arrows), draggingEnd, draggingBody, dx, dy)
    {
      if draggingEnd.Some? {
        var k := FindArrowIndex(app.arrows, draggingEnd.value.arrowId);
        if k.Some? {
          app.UpdateArrow(draggingEnd.value.arrowId, DragEndpoint(app.arrows[k.value], draggingEnd.value.isEnd, dx, dy));
        }
      } else if draggingBody.Some? {
        var k := FindArrowIndex(app.arrows, draggingBody.value);
        if k.Some? {
          app.UpdateArrow(draggingBody.value, DragBody(app.arrows[k.value], dx, dy));
        }
      }
    }

    method HandleMouseMove(clientX: int, clientY: int)
      modifies this`startDragX, this`startDragY, app`arrows
      ensures app.arrows == MovedArrows(old(app.arrows), draggingEnd, draggingBody, clientX - old(startDragX), clientY - old(startDragY))
      ensures draggingEnd.Some? || draggingBody.Some? ==> startDragX == clientX && startDragY == clientY
      ensures draggingEnd.None? && draggingBody.None? ==> startDragX == old(startDragX) && startDragY == old(startDragY)
      ensures old(Mutations.Valid(app.State())) ==> Mutations.Valid(app.State())
    {
      if draggingEnd.Some? || draggingBody.Some? {
        var dx := clientX - startDragX;
        var dy := clientY - startDragY;
        ghost var g := app.State();
        if Mutations.Valid(g) {
          MovedArrowsValid(g, draggingEnd, draggingBody, dx, dy);
        }
        startDragX := clientX;
        startDragY := clientY;
        MoveDragged(dx, dy);
        assert app.State() == g.(arrows := MovedArrows(g.arrows, draggingEnd, draggingBody, dx, dy));
      }
    }

    /** `handleMouseUp`, `nearest` standing for the rendered geometry. */
    method HandleMouseUp(nearest: NearestPoint)
      modifies this`draggingEnd, this`draggingBody, app`arrows
      ensures app.arrows == Released(old(app.arrows), app.tabPositions, tabSizes, old(draggingEnd), nearest)
      ensures draggingEnd.None? && draggingBody.None?
      ensures old(Mutations.Valid(app.State())) ==> Mutations.Valid(app.State())
    {
      if Mutations.Valid(app.State()) {
        ReleasedValid(app.State(), tabSizes, draggingEnd, nearest);
      }
      app.SetArrows(Released(app.arrows, app.tabPositions, tabSizes, draggingEnd, nearest));
      draggingEnd := None;
      draggingBody := None;
    }

    /** `handleAddTab`, `freshId` standing for the generated identifier. */
    method HandleAddTab(freshId: Id)
      modifies app`tabs, app`tabPositions
      ensures app.State() == Mutations.AddTab(old(app.State()), freshId)
      ensures old(Mutations.Valid(app.State())) && freshId !in TabIds(old(app.tabs)) ==> Mutations.Valid(app.State())
    {
      app.AddTab(freshId);
    }

    /** `handleAddArrow`, `freshId` standing for the generated identifier. */
    method HandleAddArrow(freshId: Id)
      modifies app`arrows
      ensures app.arrows == old(app.arrows) + [NewArrow(freshId, |old(app.arrows)|)]
      ensures old(Mutations.Valid(app.State())) ==> Mutations.Valid(app.State())
    {
      app.SetArrows(app.arrows + [NewArrow(freshId, |app.arrows|)]);
    }

    /** `updateConnectedArrows`: for each arrow of the list it started from,
        one attached to the tab is reattached and stored through `updateArrow`. */
    method UpdateConnectedArrows(tabId: Id, positions: seq<TabPosition>, nearest: NearestPoint)
      modifies app`arrows
      ensures app.arrows == Followed(old(app.arrows), positions, tabId, nearest)
      ensures old(Mutations.Valid(app.State())) ==> Mutations.Valid(app.State())
    {
      var found := PositionOf(positions, tabId);
      if found.Some? {
        var snapshot := app.arrows;
        ghost var valid := Mutations.Valid(app.State());
        var i := 0;
        while i < |snapshot|
          invariant i <= |snapshot|
          invariant FollowTab(app.arrows, snapshot[i..], tabId, found.value, nearest)
                 == FollowTab(snapshot, snapshot, tabId, found.value, nearest)
          invariant valid ==> Mutations.ArrowsAttached(app.tabs, snapshot) && Mutations.Valid(app.State())
        {
          var a := snapshot[i];
          assert snapshot[i..][0] == a && snapshot[i..][1..] == snapshot[i + 1..];
          assert a in snapshot;
          FollowOne(a, tabId, found.value, nearest, snapshot[i..]);
          i := i + 1;
        }
      }
    }

    /** One pass of the `forEach` in `updateConnectedArrows`: an arrow
        attached to the tab is reattached and stored. */
    method FollowOne(a: Arrow, tabId: Id, pos: TabPosition, nearest: NearestPoint, ghost rest: seq<Arrow>)
      requires rest != [] && rest[0] == a
      modifies app`arrows
      ensures FollowTab(app.arrows, rest[1..], tabId, pos, nearest) == FollowTab(old(app.arrows), rest, tabId, pos, nearest)
      ensures Mutations.Valid(old(app.State())) && Mutations.EndpointOk(app.tabs, a.from) && Mutations.EndpointOk(app.tabs, a.to)
        ==> Mutations.Valid(app.State())
    {
      if a.from == Some(tabId) || a.to == Some(tabId) {
        app.UpdateArrow(a.id, Reattached(a, tabId, pos, nearest));
      }
    }

    /** `handleTabDragStop`: the tab's position is stored, then the arrows
        attached to it follow, looked up in the positions as they were. */
    method HandleTabDragStop(tabId: Id, x: int, y: int, nearest: NearestPoint)
      modifies app`tabPositions, app`arrows
      ensures app.tabPositions == Mutations.UpdateTabPosition(old(app.tabPositions), tabId, x, y)
      ensures app.arrows == Followed(old(app.arrows), old(app.tabPositions), tabId, nearest)
      ensures old(Mutations.Valid(app.State())) ==> Mutations.Valid(app.State())
    {
      var positions := app.tabPositions;
      app.UpdateTabPosition(tabId, x, y);
      UpdateConnectedArrows(tabId, positions, nearest);
    }
  }
}
