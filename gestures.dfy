/** The two drag-and-drop decisions of the organizer's page: where a component
    dropped on a container goes, and when hovering a dragged group over another
    group reorders them. */
module Gestures {
  import opened Wrappers
  import opened Lists
  import opened Types
  import opened Organizer

  /** The drop callback of a component container rendering `componentIds`: the target
      index it passes to `handleDrop`, or `None` when it ignores the drop because the
      component comes from this very container. */
  function ContainerDropIndex(item: DragItem, containerId: string, componentIds: seq<string>): (r: Option<int>)
    ensures r.None? <==> item.sourceId == containerId
    ensures r.Some? ==> r.value == |componentIds|
  {
    if item.sourceId == containerId then None else Some(|componentIds|)
  }

  /** The component containers the page renders from state `s`, as the id it gives
      the container and the list it hands it: `'ungrouped'` with the ungrouped list,
      and each group's id with that group's own list. */
  ghost predicate Rendered(s: ComponentState, containerId: string, componentIds: seq<string>)
  {
    || (containerId == Ungrouped && componentIds == s.ungroupedComponentIds)
    || exists k | 0 <= k < |s.groups| :: s.groups[k].id == containerId && s.groups[k].componentIds == componentIds
  }

  /** Every rendered container names an existing container. */
  lemma RenderedIsContainer(s: ComponentState, containerId: string, componentIds: seq<string>)
    requires Rendered(s, containerId, componentIds)
    ensures Container(s, containerId).Some?
  {
    if containerId != Ungrouped {
      var k :| 0 <= k < |s.groups| && s.groups[k].id == containerId && s.groups[k].componentIds == componentIds;
      assert FindGroup(s.groups, containerId).Some?;
    }
  }

  /** While group ids are distinct and none is `'ungrouped'`, the list a container is
      rendered with is the list `handleDrop` finds under its id, so the drop appends. */
  lemma RenderedUnderUniqueIds(s: ComponentState, containerId: string, componentIds: seq<string>)
    requires UniqueGroupIds(s.groups) && forall i | 0 <= i < |s.groups| :: s.groups[i].id != Ungrouped
    requires Rendered(s, containerId, componentIds)
    ensures Container(s, containerId) == Some(componentIds)
  {
    if containerId != Ungrouped {
      var k :| 0 <= k < |s.groups| && s.groups[k].id == containerId && s.groups[k].componentIds == componentIds;
      assert FindGroup(s.groups, containerId) == Some(k);
    }
  }

  /** A drop handed to `handleDrop` with target `containerId` from elsewhere inserts
      the component into the container `handleDrop` finds under that id, at the
      clamped index `n`; with `n` that container's length, it is appended. */
  lemma ContainerDropInserts(s: ComponentState, item: DragItem, containerId: string, n: int)
    requires Container(s, containerId).Some? && item.sourceId != containerId
    ensures var ids := Container(s, containerId).value;
            && Container(Drop(s, item, containerId, n), containerId) == Some(SpliceInsert(ids, n, item.id))
            && (n == |ids| ==> Container(Drop(s, item, containerId, n), containerId) == Some(ids + [item.id]))
  {
    var ids := Container(s, containerId).value;
    var s1 := RemoveFrom(s, item.id, item.sourceId);
    if Container(s, item.sourceId).Some? {
      var src := Container(s, item.sourceId).value;
      ContainerAfterSet(s, item.sourceId, Without(src, item.id), containerId);
    }
    assert Container(s1, containerId) == Some(ids);
    ContainerAfterSet(s1, containerId, SpliceInsert(ids, n, item.id), containerId);
    if n == |ids| {
      assert SpliceInsert(ids, n, item.id) == ids + [item.id];
    }
  }

  /** Two groups sharing the id `g`; the page renders both, each with its own list. */
  const SameIdGroups := ComponentState(map[], [ComponentGroup("g", "A", ["a", "b"]), ComponentGroup("g", "B", ["c"])], ["d"])

  /** Dropping `d` on the second container rendered for `g` passes that container's
      length 1 to `handleDrop`, which splices `d` into the first group with id `g`
      at position 1: the drop lands inside the other group, not at the end. */
  lemma DropOnLaterSameIdGroup()
    ensures Rendered(SameIdGroups, "g", ["c"])
    ensures ContainerDropIndex(DragItem("d", Ungrouped, 0), "g", ["c"]) == Some(1)
    ensures var r := Drop(SameIdGroups, DragItem("d", Ungrouped, 0), "g", 1);
            r.groups == [ComponentGroup("g", "A", ["a", "d", "b"]), ComponentGroup("g", "B", ["c"])]
            && r.ungroupedComponentIds == []
  {
    var s := SameIdGroups;
    assert s.groups[1].id == "g" && s.groups[1].componentIds == ["c"];
    assert FindGroup(s.groups, "g") == Some(0);
    var s1 := RemoveFrom(s, "d", Ungrouped);
    assert Without(["d"], "d") == [];
    assert s1 == s.(ungroupedComponentIds := []);
    assert FindGroup(s1.groups, "g") == Some(0);
    assert SpliceInsert(["a", "b"], 1, "d") == ["a", "d", "b"];
  }

  /** A drop the container accepts appends the component at the end of that
      container; the source loses it when it exists, and no other container changes. */
  lemma ContainerDropAppends(s: ComponentState, item: DragItem, containerId: string, d: string)
    requires Container(s, containerId).Some?
    requires ContainerDropIndex(item, containerId, Container(s, containerId).value).Some?
    ensures var ids := Container(s, containerId).value;
            var r := Drop(s, item, containerId, |ids|);
            && Container(r, containerId) == Some(ids + [item.id])
            && (Container(s, item.sourceId).Some? ==>
                  Container(r, item.sourceId) == Some(Without(Container(s, item.sourceId).value, item.id)))
            && (d != containerId && d != item.sourceId ==> Container(r, d) == Container(s, d))
  {
    var ids := Container(s, containerId).value;
    var s1 := RemoveFrom(s, item.id, item.sourceId);
    if Container(s, item.sourceId).Some? {
      var src := Container(s, item.sourceId).value;
      ContainerAfterSet(s, item.sourceId, Without(src, item.id), containerId);
      ContainerAfterSet(s, item.sourceId, Without(src, item.id), item.sourceId);
    }
    assert Container(s1, containerId) == Some(ids);
    ContainerAfterSet(s1, containerId, SpliceInsert(ids, |ids|, item.id), containerId);
    ContainerAfterSet(s1, containerId, SpliceInsert(ids, |ids|, item.id), item.sourceId);
    assert SpliceInsert(ids, |ids|, item.id) == ids + [item.id];
    if d != containerId && d != item.sourceId {
      DropKeepsOtherContainers(s, item, containerId, |ids|, d);
    }
  }

  /** The hover rule of a group card spanning `top`..`bottom` on screen, hovered by
      the group dragged from `dragIndex` with the cursor at `clientY`: whether it calls
      `onMoveGroup(dragIndex, hoverIndex)`. The half height is measured from the top
      of the card. */
  function ShouldMoveGroup(dragIndex: int, hoverIndex: int, top: real, bottom: real, clientY: real): (move: bool)
    ensures move <==> (&& dragIndex != hoverIndex
                       && (dragIndex < hoverIndex ==> clientY >= (top + bottom) / 2.0)
                       && (dragIndex > hoverIndex ==> clientY <= (top + bottom) / 2.0))
  {
    var hoverMiddleY := (bottom - top) / 2.0;
    var hoverClientY := clientY - top;
    if dragIndex == hoverIndex then false
    else if dragIndex < hoverIndex && hoverClientY < hoverMiddleY then false
    else if dragIndex > hoverIndex && hoverClientY > hoverMiddleY then false
    else true
  }
}
