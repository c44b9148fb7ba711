/** The component-library organizer's state transitions as functions on values: what
    each handler of the organizer page computes as the next state, and what it
    preserves. The page itself, with its shallow copies and in-place splices, is in
    module ComponentIndex, whose handlers are proved to produce exactly these values. */
module Organizer {

  import opened Wrappers
  import opened Lists
  import opened Types
  import JsText

  /** The container id of the ungrouped list. */
  const Ungrouped: string := "ungrouped"

  /** What a component card hands to the container it is dropped on: the component
      id, the container it was dragged from, and its position there. */
  datatype DragItem = DragItem(id: string, sourceId: string, index: int)

  // ---------------------------------------------------------------- containers

  function GroupIds(gs: seq<ComponentGroup>): (r: seq<string>)
    ensures |r| == |gs| && forall i | 0 <= i < |gs| :: r[i] == gs[i].id
  {
    seq(|gs|, i requires 0 <= i < |gs| => gs[i].id)
  }

  /** `groups.find(g => g.id === id)`, as the position of the first group with that id. */
  function FindGroup(gs: seq<ComponentGroup>, id: string): (r: Option<nat>)
    ensures r.Some? ==> r.value < |gs| && gs[r.value].id == id && forall i | 0 <= i < r.value :: gs[i].id != id
    ensures r.None? <==> forall i | 0 <= i < |gs| :: gs[i].id != id
  {
    IndexOf(GroupIds(gs), id)
  }

  /** The member list of container `cid`: the ungrouped list when `cid` is
      `'ungrouped'`, otherwise that of the first group whose id is `cid`. */
  function Container(s: ComponentState, cid: string): Option<seq<string>>
  {
    if cid == Ungrouped then Some(s.ungroupedComponentIds)
    else match FindGroup(s.groups, cid)
      case None => None
      case Some(k) => Some(s.groups[k].componentIds)
  }

  /** `s` with the member list of the existing container `cid` replaced by `ids`. */
  function SetContainer(s: ComponentState, cid: string, ids: seq<string>): (r: ComponentState)
    requires Container(s, cid).Some?
    ensures r.components == s.components
    ensures |r.groups| == |s.groups|
    ensures forall i | 0 <= i < |s.groups| :: r.groups[i].id == s.groups[i].id && r.groups[i].name == s.groups[i].name
    ensures GroupIds(r.groups) == GroupIds(s.groups)
    ensures cid != Ungrouped ==> r.ungroupedComponentIds == s.ungroupedComponentIds
    ensures forall i | 0 <= i < |s.groups| && (cid == Ungrouped || FindGroup(s.groups, cid) != Some(i)) ::
      r.groups[i] == s.groups[i]
  {
    if cid == Ungrouped then s.(ungroupedComponentIds := ids)
    else
      var k := FindGroup(s.groups, cid).value;
      var r := s.(groups := s.groups[k := s.groups[k].(componentIds := ids)]);
      assert GroupIds(r.groups) == GroupIds(s.groups);
      r
  }

  /** After replacing the list of `cid`, container `cid` holds `ids` and every other
      container holds what it held. */
  lemma ContainerAfterSet(s: ComponentState, cid: string, ids: seq<string>, d: string)
    requires Container(s, cid).Some?
    ensures Container(SetContainer(s, cid, ids), d) == if d == cid then Some(ids) else Container(s, d)
  {
    var r := SetContainer(s, cid, ids);
    assert FindGroup(r.groups, d) == FindGroup(s.groups, d);
  }

  function IsNot(x: string): string -> bool
  {
    (y: string) => y != x
  }

  /** `ids.filter(id => id !== x)`. */
  function Without(ids: seq<string>, x: string): seq<string>
  {
    Filter(ids, IsNot(x))
  }

  // ---------------------------------------------------------------- all ids

  /** The member lists of `gs`, concatenated in group order. */
  function Members(gs: seq<ComponentGroup>): seq<string>
  {
    if gs == [] then [] else gs[0].componentIds + Members(gs[1..])
  }

  /** Every id held by some container: the ungrouped list, then each group's members. */
  function AllIds(s: ComponentState): seq<string>
  {
    s.ungroupedComponentIds + Members(s.groups)
  }

  /** Every registered id sits in exactly one container exactly once, and no
      container holds an id that is not registered. */
  ghost predicate Partitioned(s: ComponentState)
  {
    multiset(AllIds(s)) == multiset(s.components.Keys)
  }

  ghost predicate UniqueGroupIds(gs: seq<ComponentGroup>)
  {
    forall i, j | 0 <= i < j < |gs| :: gs[i].id != gs[j].id
  }

  /** The invariant the organizer keeps as long as group ids are fresh. */
  ghost predicate Invariant(s: ComponentState)
  {
    Partitioned(s) && UniqueGroupIds(s.groups)
  }

  lemma {:induction false} MembersAppend(a: seq<ComponentGroup>, b: seq<ComponentGroup>)
    ensures Members(a + b) == Members(a) + Members(b)
  {
    if a == [] {
      assert a + b == b;
    } else {
      assert (a + b)[1..] == a[1..] + b;
      MembersAppend(a[1..], b);
    }
  }

  lemma {:induction false} MembersUpdate(gs: seq<ComponentGroup>, k: nat, ids: seq<string>)
    requires k < |gs|
    ensures multiset(Members(gs[k := gs[k].(componentIds := ids)])) + multiset(gs[k].componentIds)
         == multiset(Members(gs)) + multiset(ids)
  {
    var u := gs[k := gs[k].(componentIds := ids)];
    MembersAround(gs, k);
    MembersAround(u, k);
    assert u[..k] == gs[..k] && u[k + 1..] == gs[k + 1..];
  }

  /** The members of `gs`, split around position `k`. */
  lemma {:induction false} MembersAround(gs: seq<ComponentGroup>, k: nat)
    requires k < |gs|
    ensures multiset(Members(gs))
         == multiset(Members(gs[..k])) + multiset(gs[k].componentIds) + multiset(Members(gs[k + 1..]))
  {
    var pre, mid, post := gs[..k], [gs[k]] + gs[k + 1..], gs[k + 1..];
    assert gs == pre + mid;
    MembersAppend(pre, mid);
    assert mid[0] == gs[k] && mid[1..] == post;
    assert Members(mid) == gs[k].componentIds + Members(post);
    assert Members(gs) == Members(pre) + (gs[k].componentIds + Members(post));
  }

  /** Two group lists with the same member lists, position by position, have the same members. */
  lemma {:induction false} MembersSameLists(a: seq<ComponentGroup>, b: seq<ComponentGroup>)
    requires |a| == |b|
    requires forall i | 0 <= i < |a| :: a[i].componentIds == b[i].componentIds
    ensures Members(a) == Members(b)
  {
    if a != [] {
      MembersSameLists(a[1..], b[1..]);
    }
  }

  /** Replacing one container's list changes the ids of the whole state by exactly
      the difference between the two lists. */
  lemma SetContainerIds(s: ComponentState, cid: string, ids: seq<string>)
    requires Container(s, cid).Some?
    ensures multiset(AllIds(SetContainer(s, cid, ids))) + multiset(Container(s, cid).value)
         == multiset(AllIds(s)) + multiset(ids)
  {
    var r := SetContainer(s, cid, ids);
    if cid == Ungrouped {
      assert AllIds(r) == ids + Members(s.groups);
    } else {
      var k := FindGroup(s.groups, cid).value;
      assert r.groups == s.groups[k := s.groups[k].(componentIds := ids)];
      MembersUpdate(s.groups, k, ids);
      assert Container(s, cid).value == s.groups[k].componentIds;
      calc {
        multiset(AllIds(r)) + multiset(Container(s, cid).value);
        multiset(s.ungroupedComponentIds) + (multiset(Members(r.groups)) + multiset(s.groups[k].componentIds));
        multiset(s.ungroupedComponentIds) + (multiset(Members(s.groups)) + multiset(ids));
        multiset(AllIds(s)) + multiset(ids);
      }
    }
  }

  /** A container's list is part of the state's ids. */
  lemma ContainerWithinAllIds(s: ComponentState, cid: string)
    requires Container(s, cid).Some?
    ensures multiset(Container(s, cid).value) <= multiset(AllIds(s))
  {
    SetContainerIds(s, cid, []);
    assert multiset(AllIds(s)) == multiset(AllIds(SetContainer(s, cid, []))) + multiset(Container(s, cid).value);
  }

  lemma WithoutSingle(ids: seq<string>, x: string)
    requires multiset(ids)[x] == 1
    ensures multiset(Without(ids, x)) + multiset{x} == multiset(ids)
  {
    forall y
      ensures (multiset(Without(ids, x)) + multiset{x})[y] == multiset(ids)[y]
    {
      FilterMultiset(ids, IsNot(x), y);
    }
  }

  // ---------------------------------------------------------------- handleDrop

  /** Removing the dragged id from its source: every occurrence of it leaves the
      ungrouped list or the first group with the source id; a missing group means
      nothing is removed. */
  function RemoveFrom(s: ComponentState, id: string, sourceId: string): ComponentState
  {
    match Container(s, sourceId)
    case None => s
    case Some(ids) => SetContainer(s, sourceId, Without(ids, id))
  }

  /** Inserting the dragged id into its target at `targetIndex` with `splice`; a
      missing group means it is inserted nowhere. */
  function InsertInto(s: ComponentState, id: string, targetId: string, targetIndex: int): ComponentState
  {
    match Container(s, targetId)
    case None => s
    case Some(ids) => SetContainer(s, targetId, SpliceInsert(ids, targetIndex, id))
  }

  /** The state `handleDrop(item, targetId, targetIndex)` stores. */
  function Drop(s: ComponentState, item: DragItem, targetId: string, targetIndex: int): (r: ComponentState)
    ensures r.components == s.components && |r.groups| == |s.groups|
    ensures GroupIds(r.groups) == GroupIds(s.groups)
  {
    InsertInto(RemoveFrom(s, item.id, item.sourceId), item.id, targetId, targetIndex)
  }

  /** A drop between two different existing containers: the id is gone from the
      source, sits at the splice position of the target (the requested index when it
      is in range), and every other container, every group's id and name, and the
      descriptor record stay as they were. */
  lemma DropMovesComponent(s: ComponentState, item: DragItem, targetId: string, targetIndex: int)
    requires Container(s, item.sourceId).Some? && Container(s, targetId).Some?
    requires item.sourceId != targetId
    ensures var r := Drop(s, item, targetId, targetIndex);
            var src := Container(s, item.sourceId).value;
            var tgt := Container(s, targetId).value;
            && Container(r, item.sourceId) == Some(Without(src, item.id))
            && item.id !in Container(r, item.sourceId).value
            && Container(r, targetId) == Some(SpliceInsert(tgt, targetIndex, item.id))
            && Container(r, targetId).value[SpliceStart(|tgt|, targetIndex)] == item.id
            && (0 <= targetIndex <= |tgt| ==> Container(r, targetId).value[targetIndex] == item.id)
            && r.components == s.components
            && |r.groups| == |s.groups|
            && (forall i | 0 <= i < |s.groups| :: r.groups[i].id == s.groups[i].id && r.groups[i].name == s.groups[i].name)
            && (forall i | 0 <= i < |s.groups| && FindGroup(s.groups, item.sourceId) != Some(i)
                                               && FindGroup(s.groups, targetId) != Some(i) ::
                  r.groups[i] == s.groups[i])
            && (item.sourceId != Ungrouped && targetId != Ungrouped ==>
                  r.ungroupedComponentIds == s.ungroupedComponentIds)
  {
    var id := item.id;
    var src := Container(s, item.sourceId).value;
    var s1 := SetContainer(s, item.sourceId, Without(src, id));
    ContainerAfterSet(s, item.sourceId, Without(src, id), targetId);
    var tgt := Container(s, targetId).value;
    var r := SetContainer(s1, targetId, SpliceInsert(tgt, targetIndex, id));
    ContainerAfterSet(s1, targetId, SpliceInsert(tgt, targetIndex, id), item.sourceId);
    ContainerAfterSet(s, item.sourceId, Without(src, id), item.sourceId);
    ContainerAfterSet(s1, targetId, SpliceInsert(tgt, targetIndex, id), targetId);
    assert FindGroup(s1.groups, targetId) == FindGroup(s.groups, targetId);
  }

  /** Every container other than the source and the target holds after a drop what
      it held before. */
  lemma DropKeepsOtherContainers(s: ComponentState, item: DragItem, targetId: string, targetIndex: int, d: string)
    requires d != item.sourceId && d != targetId
    ensures Container(Drop(s, item, targetId, targetIndex), d) == Container(s, d)
  {
    var s1 := RemoveFrom(s, item.id, item.sourceId);
    if Container(s, item.sourceId).Some? {
      ContainerAfterSet(s, item.sourceId, Without(Container(s, item.sourceId).value, item.id), d);
    }
    if Container(s1, targetId).Some? {
      ContainerAfterSet(s1, targetId, SpliceInsert(Container(s1, targetId).value, targetIndex, item.id), d);
    }
  }

  /** Removing an id that occurs once in the source takes exactly that one copy away. */
  lemma RemoveFromIds(s: ComponentState, id: string, sourceId: string)
    requires Container(s, sourceId).Some? && multiset(Container(s, sourceId).value)[id] == 1
    ensures multiset(AllIds(RemoveFrom(s, id, sourceId))) + multiset{id} == multiset(AllIds(s))
  {
    var src := Container(s, sourceId).value;
    var s1 := SetContainer(s, sourceId, Without(src, id));
    assert RemoveFrom(s, id, sourceId) == s1;
    SetContainerIds(s, sourceId, Without(src, id));
    WithoutSingle(src, id);
    forall y
      ensures (multiset(AllIds(s1)) + multiset{id})[y] == multiset(AllIds(s))[y]
    {
      assert (multiset(AllIds(s1)) + multiset(src))[y] == (multiset(AllIds(s)) + multiset(Without(src, id)))[y];
      assert (multiset(Without(src, id)) + multiset{id})[y] == multiset(src)[y];
    }
  }

  /** Inserting into an existing target adds exactly one copy of the id. */
  lemma InsertIntoIds(s: ComponentState, id: string, targetId: string, targetIndex: int)
    requires Container(s, targetId).Some?
    ensures multiset(AllIds(InsertInto(s, id, targetId, targetIndex))) == multiset(AllIds(s)) + multiset{id}
  {
    var tgt := Container(s, targetId).value;
    var ins := SpliceInsert(tgt, targetIndex, id);
    var s1 := SetContainer(s, targetId, ins);
    assert InsertInto(s, id, targetId, targetIndex) == s1;
    SetContainerIds(s, targetId, ins);
    forall y
      ensures multiset(AllIds(s1))[y] == (multiset(AllIds(s)) + multiset{id})[y]
    {
      assert (multiset(AllIds(s1)) + multiset(tgt))[y] == (multiset(AllIds(s)) + multiset(ins))[y];
      assert multiset(ins)[y] == (multiset(tgt) + multiset{id})[y];
    }
  }

  /** Removing never makes a container appear or disappear. */
  lemma RemoveFromKeepsContainers(s: ComponentState, id: string, sourceId: string, d: string)
    ensures Container(RemoveFrom(s, id, sourceId), d).Some? == Container(s, d).Some?
  {
    if Container(s, sourceId).Some? {
      ContainerAfterSet(s, sourceId, Without(Container(s, sourceId).value, id), d);
    }
  }

  /** A drop of an id that occurs exactly once in an existing source into an existing
      target neither creates nor loses an id. */
  lemma DropPreservesIds(s: ComponentState, item: DragItem, targetId: string, targetIndex: int)
    requires Container(s, item.sourceId).Some? && Container(s, targetId).Some?
    requires multiset(Container(s, item.sourceId).value)[item.id] == 1
    ensures multiset(AllIds(Drop(s, item, targetId, targetIndex))) == multiset(AllIds(s))
  {
    var s1 := RemoveFrom(s, item.id, item.sourceId);
    RemoveFromIds(s, item.id, item.sourceId);
    RemoveFromKeepsContainers(s, item.id, item.sourceId, targetId);
    InsertIntoIds(s1, item.id, targetId, targetIndex);
  }

  /** Hence a drop of an id out of the container that holds it keeps the partition. */
  lemma DropPreservesPartition(s: ComponentState, item: DragItem, targetId: string, targetIndex: int)
    requires Partitioned(s)
    requires Container(s, item.sourceId).Some? && item.id in Container(s, item.sourceId).value
    requires Container(s, targetId).Some?
    ensures Partitioned(Drop(s, item, targetId, targetIndex))
  {
    ContainerWithinAllIds(s, item.sourceId);
    assert multiset(AllIds(s))[item.id] == 1;
    DropPreservesIds(s, item, targetId, targetIndex);
  }

  /** A drop onto a container that does not exist removes the id from its source and
      inserts it nowhere: the state loses exactly the copies the source held. */
  lemma DropToMissingTarget(s: ComponentState, item: DragItem, targetId: string, targetIndex: int)
    requires Container(s, targetId).None?
    ensures Drop(s, item, targetId, targetIndex) == RemoveFrom(s, item.id, item.sourceId)
    ensures Container(s, item.sourceId).Some? ==>
      var r := Drop(s, item, targetId, targetIndex);
      var src := Container(s, item.sourceId).value;
      && Container(r, item.sourceId) == Some(Without(src, item.id))
      && (forall y :: multiset(AllIds(r))[y] + (if y == item.id then multiset(src)[y] else 0) == multiset(AllIds(s))[y])
  {
    if Container(s, item.sourceId).Some? {
      var src := Container(s, item.sourceId).value;
      var s1 := SetContainer(s, item.sourceId, Without(src, item.id));
      ContainerAfterSet(s, item.sourceId, Without(src, item.id), targetId);
      ContainerAfterSet(s, item.sourceId, Without(src, item.id), item.sourceId);
      SetContainerIds(s, item.sourceId, Without(src, item.id));
      forall y
        ensures multiset(AllIds(s1))[y] + (if y == item.id then multiset(src)[y] else 0) == multiset(AllIds(s))[y]
      {
        FilterMultiset(src, IsNot(item.id), y);
        assert (multiset(AllIds(s1)) + multiset(src))[y] == (multiset(AllIds(s)) + multiset(Without(src, item.id)))[y];
      }
    }
  }

  /** A drop whose source group does not exist only inserts: the id gains one copy. */
  lemma DropFromMissingSource(s: ComponentState, item: DragItem, targetId: string, targetIndex: int)
    requires Container(s, item.sourceId).None?
    ensures Drop(s, item, targetId, targetIndex) == InsertInto(s, item.id, targetId, targetIndex)
    ensures Container(s, targetId).Some? ==>
      multiset(AllIds(Drop(s, item, targetId, targetIndex))) == multiset(AllIds(s)) + multiset{item.id}
  {
    assert RemoveFrom(s, item.id, item.sourceId) == s;
    if Container(s, targetId).Some? {
      InsertIntoIds(s, item.id, targetId, targetIndex);
    }
  }

  // ---------------------------------------------------------------- handleAddGroup

  /** The state `handleAddGroup` stores for the typed name and the generated id. */
  function AddGroup(s: ComponentState, name: string, freshId: string): (r: ComponentState)
    ensures r.components == s.components && r.ungroupedComponentIds == s.ungroupedComponentIds
    ensures |s.groups| <= |r.groups| <= |s.groups| + 1 && r.groups[..|s.groups|] == s.groups
  {
    if JsText.IsBlank(name) then s
    else s.(groups := s.groups + [ComponentGroup(freshId, name, [])])
  }

  /** A blank name changes nothing; otherwise one empty group with the untrimmed name
      is appended, and no container gains or loses an id. */
  lemma AddGroupSpec(s: ComponentState, name: string, freshId: string)
    ensures JsText.IsBlank(name) ==> AddGroup(s, name, freshId) == s
    ensures !JsText.IsBlank(name) ==>
      var r := AddGroup(s, name, freshId);
      && r.groups == s.groups + [ComponentGroup(freshId, name, [])]
      && r.groups[|s.groups|].name == name
      && r.components == s.components
      && r.ungroupedComponentIds == s.ungroupedComponentIds
    ensures AllIds(AddGroup(s, name, freshId)) == AllIds(s)
    ensures Partitioned(s) ==> Partitioned(AddGroup(s, name, freshId))
    ensures Invariant(s) && freshId !in GroupIds(s.groups) ==> Invariant(AddGroup(s, name, freshId))
  {
    if !JsText.IsBlank(name) {
      var g := ComponentGroup(freshId, name, []);
      MembersAppend(s.groups, [g]);
      assert Members([g]) == [];
      var gs := s.groups + [g];
      if Invariant(s) && freshId !in GroupIds(s.groups) {
        forall i, j | 0 <= i < j < |gs| ensures gs[i].id != gs[j].id {
          if j == |s.groups| {
            assert GroupIds(s.groups)[i] == gs[i].id;
          }
        }
      }
    }
  }

  // ---------------------------------------------------------------- handleDeleteGroup

  function GroupIdIsNot(gid: string): ComponentGroup -> bool
  {
    (g: ComponentGroup) => g.id != gid
  }

  /** The state `handleDeleteGroup(gid)` stores: every group with that id is removed,
      and the members of the first one are appended to the ungrouped list. */
  function DeleteGroup(s: ComponentState, gid: string): (r: ComponentState)
    ensures r.components == s.components && |r.groups| <= |s.groups|
    ensures s.ungroupedComponentIds <= r.ungroupedComponentIds
  {
    match FindGroup(s.groups, gid)
    case None => s
    case Some(k) =>
      s.(groups := Filter(s.groups, GroupIdIsNot(gid)),
         ungroupedComponentIds := s.ungroupedComponentIds + s.groups[k].componentIds)
  }

  /** Deleting an unknown group changes nothing; deleting a known one leaves no group
      with that id, keeps every other group in its order, and appends the group's
      members, in their order, to the ungrouped list. */
  lemma DeleteGroupSpec(s: ComponentState, gid: string)
    ensures FindGroup(s.groups, gid).None? ==> DeleteGroup(s, gid) == s
    ensures FindGroup(s.groups, gid).Some? ==>
      var r := DeleteGroup(s, gid);
      var k := FindGroup(s.groups, gid).value;
      && gid !in GroupIds(r.groups)
      && IsSubsequence(r.groups, s.groups)
      && (forall g: ComponentGroup | g.id != gid :: multiset(r.groups)[g] == multiset(s.groups)[g])
      && r.ungroupedComponentIds == s.ungroupedComponentIds + s.groups[k].componentIds
      && r.components == s.components
  {
    if FindGroup(s.groups, gid).Some? {
      var r := DeleteGroup(s, gid);
      FilterIsSubsequence(s.groups, GroupIdIsNot(gid));
      forall g: ComponentGroup | g.id != gid
        ensures multiset(r.groups)[g] == multiset(s.groups)[g]
      {
        FilterMultiset(s.groups, GroupIdIsNot(gid), g);
      }
    }
  }

  /** Past the first group, group ids stay distinct, and none repeats the first. */
  lemma {:induction false} UniqueGroupIdsTail(gs: seq<ComponentGroup>)
    requires gs != [] && UniqueGroupIds(gs)
    ensures UniqueGroupIds(gs[1..])
    ensures forall i | 0 <= i < |gs[1..]| :: gs[1..][i].id != gs[0].id
  {
    var t := gs[1..];
    forall i, j | 0 <= i < j < |t| ensures t[i].id != t[j].id {
      assert t[i] == gs[i + 1] && t[j] == gs[j + 1];
    }
    forall i | 0 <= i < |t| ensures t[i].id != gs[0].id {
      assert t[i] == gs[i + 1];
    }
  }

  /** With one group per id, removing the group with id `gid` at `k` loses exactly its members. */
  lemma {:induction false} MembersFilterOut(gs: seq<ComponentGroup>, gid: string, k: nat)
    requires UniqueGroupIds(gs) && k < |gs| && gs[k].id == gid
    ensures multiset(Members(Filter(gs, GroupIdIsNot(gid)))) + multiset(gs[k].componentIds)
         == multiset(Members(gs))
  {
    var keep := GroupIdIsNot(gid);
    var t := gs[1..];
    UniqueGroupIdsTail(gs);
    if k == 0 {
      FilterKeepsAll(t, keep);
      assert Filter(gs, keep) == t;
    } else {
      MembersFilterOut(t, gid, k - 1);
      var f := Filter(t, keep);
      assert Filter(gs, keep) == [gs[0]] + f;
      assert ([gs[0]] + f)[1..] == f;
      assert Members([gs[0]] + f) == gs[0].componentIds + Members(f);
    }
  }

  /** While group ids are unique, deleting a group keeps the partition. */
  lemma DeleteGroupPreservesInvariant(s: ComponentState, gid: string)
    requires Invariant(s)
    ensures Invariant(DeleteGroup(s, gid))
  {
    match FindGroup(s.groups, gid)
    case None =>
    case Some(k) =>
      var r := DeleteGroup(s, gid);
      MembersFilterOut(s.groups, gid, k);
      assert multiset(AllIds(r)) == multiset(AllIds(s));
      FilterUniqueIds(s.groups, GroupIdIsNot(gid));
  }

  lemma {:induction false} FilterUniqueIds(gs: seq<ComponentGroup>, keep: ComponentGroup -> bool)
    requires UniqueGroupIds(gs)
    ensures UniqueGroupIds(Filter(gs, keep))
  {
    if gs != [] {
      FilterUniqueIds(gs[1..], keep);
      var rest := Filter(gs[1..], keep);
      if keep(gs[0]) {
        var r := [gs[0]] + rest;
        forall i, j | 0 <= i < j < |r| ensures r[i].id != r[j].id {
          if i == 0 {
            assert r[j] in gs[1..];
          }
        }
      }
    }
  }

  /** Two groups sharing the id `group-1`, holding the two registered components. */
  const RepeatedIdExample := ComponentState(
    map["x" := ComponentInfo("x", "X", "/x", ""), "y" := ComponentInfo("y", "Y", "/y", "")],
    [ComponentGroup("group-1", "A", ["x"]), ComponentGroup("group-1", "B", ["y"])], [])

  lemma RepeatedIdExamplePartitioned()
    ensures Partitioned(RepeatedIdExample)
  {
    var s := RepeatedIdExample;
    var gs := s.groups;
    assert s.components.Keys == {"x", "y"};
    assert gs[1..] == [gs[1]];
    assert Members(gs[1..]) == ["y"];
    assert AllIds(s) == ["x", "y"];
    assert multiset(s.components.Keys) == multiset{"x", "y"};
  }

  lemma RepeatedIdExampleDeleted()
    ensures DeleteGroup(RepeatedIdExample, "group-1") == RepeatedIdExample.(groups := [], ungroupedComponentIds := ["x"])
  {
    var gs := RepeatedIdExample.groups;
    assert FindGroup(gs, "group-1") == Some(0) by {
      assert GroupIds(gs)[0] == "group-1";
    }
    var keep := GroupIdIsNot("group-1");
    assert gs[1..][1..] == [];
    assert Filter(gs[1..], keep) == [];
  }

  /** Group ids come from a millisecond clock and can repeat. When two groups share
      an id, deleting it removes both but returns only the first one's members to the
      ungrouped list: the second group's members are lost. */
  lemma DeleteGroupWithRepeatedIdLosesMembers()
    ensures var r := DeleteGroup(RepeatedIdExample, "group-1");
            && Partitioned(RepeatedIdExample)
            && r.groups == [] && r.ungroupedComponentIds == ["x"]
            && !Partitioned(r)
  {
    RepeatedIdExamplePartitioned();
    RepeatedIdExampleDeleted();
    var r := DeleteGroup(RepeatedIdExample, "group-1");
    assert AllIds(r) == ["x"];
    assert multiset(AllIds(r))["y"] == 0;
    assert "y" in r.components.Keys;
  }

  // ---------------------------------------------------------------- handleSaveGroupName

  /** `groups.map(g => g.id === gid ? { ...g, name } : g)`. */
  function RenameGroups(gs: seq<ComponentGroup>, gid: string, name: string): (r: seq<ComponentGroup>)
    ensures |r| == |gs|
  {
    if gs == [] then []
    else [if gs[0].id == gid then gs[0].(name := name) else gs[0]] + RenameGroups(gs[1..], gid, name)
  }

  lemma {:induction false} RenameGroupsAt(gs: seq<ComponentGroup>, gid: string, name: string)
    ensures |RenameGroups(gs, gid, name)| == |gs|
    ensures forall i | 0 <= i < |gs| ::
      RenameGroups(gs, gid, name)[i] == if gs[i].id == gid then gs[i].(name := name) else gs[i]
  {
    if gs != [] {
      RenameGroupsAt(gs[1..], gid, name);
    }
  }

  /** The state `handleSaveGroupName` stores for the id and name being edited. A
      missing or empty id, or a blank name, changes nothing. */
  function SaveGroupName(s: ComponentState, editingId: Option<string>, editingName: string): (r: ComponentState)
    ensures r.components == s.components && r.ungroupedComponentIds == s.ungroupedComponentIds
    ensures |r.groups| == |s.groups|
  {
    if editingId.None? || editingId.value == "" || JsText.IsBlank(editingName) then s
    else s.(groups := RenameGroups(s.groups, editingId.value, editingName))
  }

  /** Renaming keeps every group's id and list, so the members and distinct ids too,
      and sets the name of exactly the groups with the id. */
  lemma RenameGroupsKeeps(gs: seq<ComponentGroup>, gid: string, name: string)
    ensures var r := RenameGroups(gs, gid, name);
      && |r| == |gs|
      && (forall i | 0 <= i < |gs| :: r[i].id == gs[i].id && r[i].componentIds == gs[i].componentIds)
      && (forall i | 0 <= i < |gs| :: r[i].name == if gs[i].id == gid then name else gs[i].name)
      && Members(r) == Members(gs)
      && (UniqueGroupIds(gs) ==> UniqueGroupIds(r))
  {
    var r := RenameGroups(gs, gid, name);
    RenameGroupsAt(gs, gid, name);
    MembersSameLists(gs, r);
    assert UniqueGroupIds(gs) ==> UniqueGroupIds(r) by {
      forall i, j | 0 <= i < j < |r| ensures r[i].id == gs[i].id && r[j].id == gs[j].id { }
    }
  }

  /** Saving a name changes only the names of the groups whose id matches: ids,
      members, group order, the ungrouped list and the record stay. */
  lemma SaveGroupNameSpec(s: ComponentState, editingId: Option<string>, editingName: string)
    ensures editingId.None? || editingId == Some("") || JsText.IsBlank(editingName) ==>
      SaveGroupName(s, editingId, editingName) == s
    ensures var r := SaveGroupName(s, editingId, editingName);
      && r.components == s.components
      && r.ungroupedComponentIds == s.ungroupedComponentIds
      && |r.groups| == |s.groups|
      && (forall i | 0 <= i < |s.groups| ::
            r.groups[i].id == s.groups[i].id && r.groups[i].componentIds == s.groups[i].componentIds)
      && (editingId.Some? && editingId.value != "" && !JsText.IsBlank(editingName) ==>
            forall i | 0 <= i < |s.groups| ::
              r.groups[i].name == if s.groups[i].id == editingId.value then editingName else s.groups[i].name)
    ensures AllIds(SaveGroupName(s, editingId, editingName)) == AllIds(s)
    ensures Invariant(s) ==> Invariant(SaveGroupName(s, editingId, editingName))
  {
    var r := SaveGroupName(s, editingId, editingName);
    if editingId.Some? && editingId.value != "" && !JsText.IsBlank(editingName) {
      RenameGroupsKeeps(s.groups, editingId.value, editingName);
      assert r == s.(groups := RenameGroups(s.groups, editingId.value, editingName));
    } else {
      assert r == s;
    }
  }

  /** Renaming the same group twice leaves the second name. */
  lemma RenameGroupsLastWins(gs: seq<ComponentGroup>, gid: string, a: string, b: string)
    ensures RenameGroups(RenameGroups(gs, gid, a), gid, b) == RenameGroups(gs, gid, b)
  {
    RenameGroupsAt(gs, gid, a);
    RenameGroupsAt(RenameGroups(gs, gid, a), gid, b);
    RenameGroupsAt(gs, gid, b);
  }

  // ---------------------------------------------------------------- handleMoveGroup

  /** The state `handleMoveGroup(dragIndex, hoverIndex)` stores. */
  function MoveGroup(s: ComponentState, dragIndex: nat, hoverIndex: nat): (r: ComponentState)
    requires dragIndex < |s.groups| && hoverIndex < |s.groups|
    ensures r.components == s.components && r.ungroupedComponentIds == s.ungroupedComponentIds
    ensures |r.groups| == |s.groups| && r.groups[hoverIndex] == s.groups[dragIndex]
  {
    s.(groups := Moved(s.groups, dragIndex, hoverIndex))
  }

  lemma {:induction false} RemoveAtMembers(gs: seq<ComponentGroup>, k: nat)
    requires k < |gs|
    ensures multiset(Members(RemoveAt(gs, k))) + multiset(gs[k].componentIds) == multiset(Members(gs))
  {
    MembersAround(gs, k);
    MembersAppend(gs[..k], gs[k + 1..]);
  }

  lemma {:induction false} InsertAtMembers(pre: seq<ComponentGroup>, g: ComponentGroup, post: seq<ComponentGroup>)
    ensures multiset(Members(pre + [g] + post)) == multiset(Members(pre + post)) + multiset(g.componentIds)
  {
    assert pre + [g] + post == pre + ([g] + post);
    assert ([g] + post)[1..] == post;
    MembersAppend(pre, [g] + post);
    MembersAppend(pre, post);
  }

  lemma {:induction false} MovedMembers(gs: seq<ComponentGroup>, from: nat, to: nat)
    requires from < |gs| && to < |gs|
    ensures multiset(Members(Moved(gs, from, to))) == multiset(Members(gs))
  {
    var g := gs[from];
    var r := RemoveAt(gs, from);
    var pre, post := r[..to], r[to..];
    SpliceMoveIsMoved(gs, from, to);
    assert Moved(gs, from, to) == pre + [g] + post;
    InsertAtMembers(pre, g, post);
    assert pre + post == r;
    RemoveAtMembers(gs, from);
  }

  /** Reordering puts the dragged group at the hover position, is a permutation of
      the groups, changes nothing when the two indices agree, is undone by the
      opposite move, and keeps the invariant. */
  lemma MoveGroupSpec(s: ComponentState, dragIndex: nat, hoverIndex: nat)
    requires dragIndex < |s.groups| && hoverIndex < |s.groups|
    ensures var r := MoveGroup(s, dragIndex, hoverIndex);
      && |r.groups| == |s.groups|
      && r.groups[hoverIndex] == s.groups[dragIndex]
      && multiset(r.groups) == multiset(s.groups)
      && r.components == s.components && r.ungroupedComponentIds == s.ungroupedComponentIds
      && (dragIndex == hoverIndex ==> r == s)
      && MoveGroup(r, hoverIndex, dragIndex) == s
    ensures Invariant(s) ==> Invariant(MoveGroup(s, dragIndex, hoverIndex))
  {
    var r := MoveGroup(s, dragIndex, hoverIndex);
    MovedIsPermutation(s.groups, dragIndex, hoverIndex);
    MovedInverse(s.groups, dragIndex, hoverIndex);
    MovedMembers(s.groups, dragIndex, hoverIndex);
    if Invariant(s) {
      forall i, j | 0 <= i < j < |r.groups| ensures r.groups[i].id != r.groups[j].id {
        MoveSourceInjective(|s.groups|, dragIndex, hoverIndex, i, j);
        var a, b := MoveSource(dragIndex, hoverIndex, i), MoveSource(dragIndex, hoverIndex, j);
        if a < b {
          assert s.groups[a].id != s.groups[b].id;
        } else {
          assert s.groups[b].id != s.groups[a].id;
        }
      }
    }
  }

  /** Renaming and reordering never touch membership, so the organizer's ids stay
      put through every operation but a drop whose source does not hold the id. */
  lemma DropPreservesInvariant(s: ComponentState, item: DragItem, targetId: string, targetIndex: int)
    requires Invariant(s)
    requires Container(s, item.sourceId).Some? && item.id in Container(s, item.sourceId).value
    requires Container(s, targetId).Some?
    ensures Invariant(Drop(s, item, targetId, targetIndex))
  {
    DropPreservesPartition(s, item, targetId, targetIndex);
    var r := Drop(s, item, targetId, targetIndex);
    assert GroupIds(r.groups) == GroupIds(s.groups);
    forall i, j | 0 <= i < j < |r.groups| ensures r.groups[i].id != r.groups[j].id {
      assert GroupIds(s.groups)[i] != GroupIds(s.groups)[j];
    }
  }

  // ---------------------------------------------------------------- a session

  /** Three ungrouped components and no groups. */
  const SessionStart := ComponentState(map["a" := ComponentInfo("a", "A", "/a", ""),
                                           "b" := ComponentInfo("b", "B", "/b", ""),
                                           "c" := ComponentInfo("c", "C", "/c", "")],
                                       [], ["a", "b", "c"])

  lemma SessionAdd(gid: string)
    ensures AddGroup(SessionStart, "Todo", gid) == SessionStart.(groups := [ComponentGroup(gid, "Todo", [])])
  {
    assert !JsText.IsBlank("Todo") by {
      assert !JsText.IsWhiteSpace("Todo"[0]);
      JsText.BlankIffAllWhiteSpace("Todo");
    }
  }

  lemma SessionDrop(gid: string)
    requires gid != Ungrouped
    ensures var s1 := SessionStart.(groups := [ComponentGroup(gid, "Todo", [])]);
            Drop(s1, DragItem("b", Ungrouped, 1), gid, 0)
              == s1.(groups := [ComponentGroup(gid, "Todo", ["b"])], ungroupedComponentIds := ["a", "c"])
  {
    var s1 := SessionStart.(groups := [ComponentGroup(gid, "Todo", [])]);
    assert FindGroup(s1.groups, gid) == Some(0);
    var removed := RemoveFrom(s1, "b", Ungrouped);
    assert Without(["a", "b", "c"], "b") == ["a", "c"];
    assert removed.ungroupedComponentIds == ["a", "c"];
    assert FindGroup(removed.groups, gid) == Some(0);
    assert SpliceInsert([], 0, "b") == ["b"];
  }

  lemma SessionDelete(gid: string)
    ensures var s2 := SessionStart.(groups := [ComponentGroup(gid, "Todo", ["b"])], ungroupedComponentIds := ["a", "c"]);
            DeleteGroup(s2, gid) == s2.(groups := [], ungroupedComponentIds := ["a", "c", "b"])
  {
    var gs := [ComponentGroup(gid, "Todo", ["b"])];
    assert FindGroup(gs, gid) == Some(0);
    assert Filter(gs, GroupIdIsNot(gid)) == [];
  }

  /** Three ungrouped components; a group "Todo" is added with the generated id
      `gid`, "b" is dragged from the ungrouped list into it, and the group is
      deleted again: "b" ends at the end of the ungrouped list. */
  lemma AddMoveDeleteSession(gid: string)
    requires gid != Ungrouped
    ensures var s1 := AddGroup(SessionStart, "Todo", gid);
            var s2 := Drop(s1, DragItem("b", Ungrouped, 1), gid, 0);
            var s3 := DeleteGroup(s2, gid);
            && s1.groups == [ComponentGroup(gid, "Todo", [])]
            && s2.groups == [ComponentGroup(gid, "Todo", ["b"])] && s2.ungroupedComponentIds == ["a", "c"]
            && s3.groups == [] && s3.ungroupedComponentIds == ["a", "c", "b"]
  {
    SessionAdd(gid);
    SessionDrop(gid);
    SessionDelete(gid);
  }
}
