/** The organizer page as the browser runs it: organizer states are objects whose
    arrays are shared between the old state and the new one, and the page keeps its
    view state in hook variables that the handlers overwrite. Each handler is tied
    to the value-level transition of module `Organizer` that it implements. */
module ComponentIndex {
  import opened Wrappers
  import opened Lists
  import opened Types
  import JsText
  import Organizer
  import Gestures
  import ViewState
  import Registration

  /** A JavaScript array of component ids, which `splice` changes in place. */
  class IdList {
    var items: seq<string>

    constructor (items0: seq<string>)
      ensures items == items0
    {
      items := items0;
    }

    /** `splice(start, 0, x)`. */
    method Insert(start: int, x: string)
      modifies this
      ensures items == SpliceInsert(old(items), start, x)
    {
      items := SpliceInsert(items, start, x);
    }
  }

  /** A group object. Its id and name are never written after creation (a rename
      builds a new object); `componentIds` is reassigned by a drop out of the group. */
  class GroupObj {
    const id: string
    const name: string
    var componentIds: IdList

    constructor (id0: string, name0: string, ids: IdList)
      ensures id == id0 && name == name0 && componentIds == ids
    {
      id, name, componentIds := id0, name0, ids;
    }

    function Value(): ComponentGroup
      reads this, componentIds
    {
      ComponentGroup(id, name, componentIds.items)
    }
  }

  /** The member arrays of a sequence of group objects. */
  ghost function ListsOf(gs: seq<GroupObj>): set<IdList>
    reads gs
  {
    set g | g in gs :: g.componentIds
  }

  /** The groups a sequence of group objects currently denotes. */
  function GroupsValue(gs: seq<GroupObj>): (r: seq<ComponentGroup>)
    reads gs, ListsOf(gs)
    ensures |r| == |gs|
    ensures forall i | 0 <= i < |gs| :: r[i] == gs[i].Value()
  {
    if gs == [] then [] else [gs[0].Value()] + GroupsValue(gs[1..])
  }

  /** The ids of a sequence of group objects. */
  function ObjIds(gs: seq<GroupObj>): (r: seq<string>)
    ensures |r| == |gs| && forall i | 0 <= i < |gs| :: r[i] == gs[i].id
  {
    seq(|gs|, i requires 0 <= i < |gs| => gs[i].id)
  }

  /** `groups.find(g => g.id === id)` on group objects, as a position. */
  function FindObj(gs: seq<GroupObj>, id: string): (r: Option<nat>)
    reads gs, ListsOf(gs)
    ensures r == Organizer.FindGroup(GroupsValue(gs), id)
  {
    assert ObjIds(gs) == Organizer.GroupIds(GroupsValue(gs));
    IndexOf(ObjIds(gs), id)
  }

  /** Distinct positions hold distinct group objects with distinct member arrays. */
  ghost predicate DistinctGroups(gs: seq<GroupObj>)
    reads gs
  {
    forall i, j | 0 <= i < |gs| && 0 <= j < |gs| && i != j ::
      gs[i] != gs[j] && gs[i].componentIds != gs[j].componentIds
  }

  /** No group's member array is `l`. */
  ghost predicate ListsApart(gs: seq<GroupObj>, l: IdList)
    reads gs
  {
    forall i | 0 <= i < |gs| :: gs[i].componentIds != l
  }

  /** `gs[k].componentIds = ids` (a freshly filtered array). */
  method ReplaceGroupList(gs: seq<GroupObj>, k: nat, ids: seq<string>)
    requires k < |gs| && DistinctGroups(gs)
    modifies gs[k]
    ensures fresh(gs[k].componentIds) && DistinctGroups(gs)
    ensures forall i | 0 <= i < |gs| && i != k :: gs[i].componentIds == old(gs[i].componentIds)
    ensures GroupsValue(gs) == old(GroupsValue(gs))[k := old(gs[k].Value()).(componentIds := ids)]
  {
    gs[k].componentIds := new IdList(ids);
  }

  /** `gs[k].componentIds.splice(start, 0, x)`. */
  method InsertIntoGroupList(gs: seq<GroupObj>, k: nat, start: int, x: string)
    requires k < |gs| && DistinctGroups(gs)
    modifies gs[k].componentIds
    ensures GroupsValue(gs) == old(GroupsValue(gs))[k := old(gs[k].Value()).(componentIds := SpliceInsert(old(gs[k].componentIds.items), start, x))]
  {
    gs[k].componentIds.Insert(start, x);
  }

  /** An organizer state object. `components` and the `groups` array are never
      changed in place; the ungrouped array is reassigned on a fresh copy and
      spliced in place. */
  class StateObj {
    const components: map<string, ComponentInfo>
    const groups: seq<GroupObj>
    var ungroupedComponentIds: IdList

    /** `{ components, groups, ungroupedComponentIds }`: the new object denotes what its
        parts denoted when it was made. */
    constructor (components0: map<string, ComponentInfo>, groups0: seq<GroupObj>, ungrouped: IdList)
      ensures components == components0 && groups == groups0 && ungroupedComponentIds == ungrouped
      ensures old(DistinctGroups(groups0) && ListsApart(groups0, ungrouped)) ==> Valid()
      ensures Value() == ComponentState(components0, old(GroupsValue(groups0)), old(ungrouped.items))
    {
      components, groups, ungroupedComponentIds := components0, groups0, ungrouped;
    }

    /** Distinct positions hold distinct group objects with distinct member arrays, none
        of them the ungrouped array, so an update through one of them is seen at that
        one place only. */
    ghost predicate Valid()
      reads this, groups
    {
      DistinctGroups(groups) && ListsApart(groups, ungroupedComponentIds)
    }

    /** What a drop on this state may write: its group objects and its arrays. */
    ghost function Repr(): set<object>
      reads this, groups
    {
      (set g | g in groups :: g as object) + ListsOf(groups) + {ungroupedComponentIds}
    }

    /** The organizer state this object currently denotes. */
    function Value(): ComponentState
      reads this, ungroupedComponentIds, groups, ListsOf(groups)
    {
      ComponentState(components, GroupsValue(groups), ungroupedComponentIds.items)
    }
  }

  /** A state object built from a value, as `JSON.parse` or a registration's
      `getInitialState` produces one: every object and array in it is new. */
  method BuildState(v: ComponentState) returns (s: StateObj)
    ensures fresh(s) && fresh(s.ungroupedComponentIds)
    ensures forall i | 0 <= i < |s.groups| :: fresh(s.groups[i]) && fresh(s.groups[i].componentIds)
    ensures s.Valid() && s.Value() == v
  {
    var objs: seq<GroupObj> := [];
    for i := 0 to |v.groups|
      invariant |objs| == i
      invariant forall k | 0 <= k < i :: fresh(objs[k]) && fresh(objs[k].componentIds)
      invariant forall k | 0 <= k < i :: objs[k].Value() == v.groups[k]
      invariant forall k, l | 0 <= k < i && 0 <= l < i && k != l ::
        objs[k] != objs[l] && objs[k].componentIds != objs[l].componentIds
    {
      var ids := new IdList(v.groups[i].componentIds);
      var g := new GroupObj(v.groups[i].id, v.groups[i].name, ids);
      objs := objs + [g];
    }
    var ungrouped := new IdList(v.ungroupedComponentIds);
    s := new StateObj(v.components, objs, ungrouped);
    assert GroupsValue(objs) == v.groups;
  }

  /** `ns.ungroupedComponentIds = ns.ungroupedComponentIds.filter(id => id !== x)`. */
  method RemoveFromUngrouped(ns: StateObj, x: string, ghost other: IdList)
    requires ns.Valid() && ListsApart(ns.groups, other)
    modifies ns
    ensures ns.Valid() && ListsApart(ns.groups, other)
    ensures fresh(ns.ungroupedComponentIds)
    ensures ns.Value() == old(ns.Value()).(ungroupedComponentIds := Organizer.Without(old(ns.ungroupedComponentIds.items), x))
  {
    ghost var v := ns.Value();
    ns.ungroupedComponentIds := new IdList(Organizer.Without(ns.ungroupedComponentIds.items, x));
    assert GroupsValue(ns.groups) == v.groups;
  }

  /** `sourceGroup.componentIds = sourceGroup.componentIds.filter(id => id !== x)` for
      the group object at position `k`. */
  method RemoveFromGroup(ns: StateObj, x: string, k: nat, ghost other: IdList)
    requires ns.Valid() && ListsApart(ns.groups, other) && k < |ns.groups|
    modifies ns.groups[k]
    ensures ns.Valid() && ListsApart(ns.groups, other)
    ensures ns.Value() == old(ns.Value()).(groups := old(ns.Value()).groups[k := old(ns.Value()).groups[k].(
                            componentIds := Organizer.Without(old(ns.groups[k].componentIds.items), x))])
    ensures forall l | l in ListsOf(ns.groups) :: l in old(ListsOf(ns.groups)) || fresh(l)
  {
    ghost var v := ns.Value();
    var g := ns.groups[k];
    ReplaceGroupList(ns.groups, k, Organizer.Without(g.componentIds.items, x));
    assert ns.ungroupedComponentIds.items == v.ungroupedComponentIds;
  }

  /** The removal half of `handleDrop` on the fresh copy `ns`: the ungrouped list is
      replaced by a filtered copy, or the source group's list is. Only new arrays
      enter the groups, so an array `other` that no group held is still held by none. */
  method RemoveObj(ns: StateObj, id: string, sourceId: string, ghost other: IdList)
    requires ns.Valid() && ListsApart(ns.groups, other)
    modifies ns, ns.groups
    ensures ns.Valid() && ListsApart(ns.groups, other)
    ensures ns.Value() == Organizer.RemoveFrom(old(ns.Value()), id, sourceId)
    ensures sourceId == Organizer.Ungrouped ==> fresh(ns.ungroupedComponentIds)
    ensures sourceId != Organizer.Ungrouped ==> ns.ungroupedComponentIds == old(ns.ungroupedComponentIds)
    ensures forall l | l in ListsOf(ns.groups) :: l in old(ListsOf(ns.groups)) || fresh(l)
  {
    if sourceId == Organizer.Ungrouped {
      RemoveFromUngrouped(ns, id, other);
    } else {
      var k := FindObj(ns.groups, sourceId);
      if k.Some? {
        RemoveFromGroup(ns, id, k.value, other);
      }
    }
  }

  /** `ns.ungroupedComponentIds.splice(targetIndex, 0, x)`. */
  method InsertIntoUngrouped(ns: StateObj, x: string, targetIndex: int, ghost other: IdList)
    requires ns.Valid() && ListsApart(ns.groups, other)
    modifies ns.ungroupedComponentIds
    ensures ns.Valid() && ListsApart(ns.groups, other)
    ensures ns.Value() == old(ns.Value()).(ungroupedComponentIds := SpliceInsert(old(ns.ungroupedComponentIds.items), targetIndex, x))
    ensures other != ns.ungroupedComponentIds ==> other.items == old(other.items)
  {
    ghost var v := ns.Value();
    assert ns.ungroupedComponentIds !in ListsOf(ns.groups);
    ns.ungroupedComponentIds.Insert(targetIndex, x);
    assert GroupsValue(ns.groups) == v.groups;
  }

  /** `targetGroup.componentIds.splice(targetIndex, 0, x)` for the group object at
      position `k`. */
  method InsertIntoGroup(ns: StateObj, x: string, k: nat, targetIndex: int, ghost other: IdList)
    requires ns.Valid() && ListsApart(ns.groups, other) && k < |ns.groups|
    modifies ns.groups[k].componentIds
    ensures ns.Valid() && ListsApart(ns.groups, other)
    ensures ns.Value() == old(ns.Value()).(groups := old(ns.Value()).groups[k := old(ns.Value()).groups[k].(
                            componentIds := SpliceInsert(old(ns.groups[k].componentIds.items), targetIndex, x))])
    ensures other.items == old(other.items)
  {
    assert ns.groups[k].componentIds != ns.ungroupedComponentIds && ns.groups[k].componentIds != other;
    ghost var v := ns.Value();
    InsertIntoGroupList(ns.groups, k, targetIndex, x);
    assert ns.ungroupedComponentIds.items == v.ungroupedComponentIds;
  }

  /** The insertion half of `handleDrop`: a splice into the target's array in place.
      An array `other` that is neither the ungrouped one nor a group's keeps its
      contents. */
  method InsertObj(ns: StateObj, id: string, targetId: string, targetIndex: int, ghost other: IdList)
    requires ns.Valid() && ListsApart(ns.groups, other)
    modifies ns.ungroupedComponentIds, ListsOf(ns.groups)
    ensures ns.Valid() && ListsApart(ns.groups, other)
    ensures ns.Value() == Organizer.InsertInto(old(ns.Value()), id, targetId, targetIndex)
    ensures other != ns.ungroupedComponentIds ==> other.items == old(other.items)
  {
    if targetId == Organizer.Ungrouped {
      InsertIntoUngrouped(ns, id, targetIndex, other);
    } else {
      var k := FindObj(ns.groups, targetId);
      if k.Some? {
        InsertIntoGroup(ns, id, k.value, targetIndex, other);
      }
    }
  }

  /** `handleDrop(item, targetId, targetIndex)` on the current state object `s`: a
      shallow copy whose fresh fields are reassigned and whose shared arrays are
      spliced. The new object denotes the value-level drop. It shares `components`,
      the `groups` array and every group object with `s`; so afterwards `s` denotes
      the same state as the new object, except that `s` keeps its own ungrouped list
      when the component came from there. */
  method DropObj(s: StateObj, item: Organizer.DragItem, targetId: string, targetIndex: int) returns (ns: StateObj)
    requires s.Valid()
    modifies s.groups, ListsOf(s.groups), s.ungroupedComponentIds
    ensures fresh(ns) && ns.Valid() && s.Valid()
    ensures ns.Value() == Organizer.Drop(old(s.Value()), item, targetId, targetIndex)
    ensures ns.components == s.components && ns.groups == s.groups
    ensures s.Value() == if item.sourceId == Organizer.Ungrouped
                         then ns.Value().(ungroupedComponentIds := old(s.ungroupedComponentIds.items))
                         else ns.Value()
  {
    ghost var v := s.Value();
    var u := s.ungroupedComponentIds;
    ns := new StateObj(s.components, s.groups, u);
    assert ListsApart(s.groups, u) && DistinctGroups(s.groups);
    RemoveObj(ns, item.id, item.sourceId, u);
    assert s.ungroupedComponentIds == u && u.items == v.ungroupedComponentIds;
    ghost var removed := ns.Value();
    assert removed == Organizer.RemoveFrom(v, item.id, item.sourceId);
    assert item.sourceId == Organizer.Ungrouped ==> u != ns.ungroupedComponentIds;
    InsertObj(ns, item.id, targetId, targetIndex, u);
    assert s.ungroupedComponentIds == u && s.Valid();
    assert item.sourceId == Organizer.Ungrouped ==> u.items == v.ungroupedComponentIds;
    assert ns.Value() == Organizer.InsertInto(removed, item.id, targetId, targetIndex);
    SharedValue(s, ns);
  }

  /** Two state objects sharing the record and the groups array denote the same
      state up to their ungrouped arrays. */
  lemma SharedValue(s: StateObj, ns: StateObj)
    requires s.components == ns.components && s.groups == ns.groups
    ensures s.Value() == ns.Value().(ungroupedComponentIds := s.ungroupedComponentIds.items)
  {
  }

  // ---------------------------------------------------------------- delete, rename, reorder on objects

  /** The `filter(g => g.id !== gid)` predicate on group objects. */
  function KeepsObj(gid: string): GroupObj -> bool
  {
    (o: GroupObj) => o.id != gid
  }

  lemma GroupsValueCons(gs: seq<GroupObj>)
    requires gs != []
    ensures GroupsValue(gs) == [gs[0].Value()] + GroupsValue(gs[1..])
  {
  }

  /** Filtering group objects by id denotes filtering their groups by id. */
  lemma {:induction false} FilterObjsValue(gs: seq<GroupObj>, gid: string)
    ensures GroupsValue(Filter(gs, KeepsObj(gid))) == Filter(GroupsValue(gs), Organizer.GroupIdIsNot(gid))
  {
    if gs != [] {
      FilterObjsValue(gs[1..], gid);
      assert GroupsValue(gs)[1..] == GroupsValue(gs[1..]);
      if gs[0].id != gid {
        GroupsValueCons(Filter(gs, KeepsObj(gid)));
      }
    }
  }

  /** Past the head, distinct group objects stay distinct, and none of them is the
      head or shares its array. */
  lemma {:induction false} TailDistinct(gs: seq<GroupObj>)
    requires gs != [] && DistinctGroups(gs)
    ensures DistinctGroups(gs[1..])
    ensures forall o | o in gs[1..] :: o != gs[0] && o.componentIds != gs[0].componentIds
  {
    var t := gs[1..];
    forall i, j | 0 <= i < |t| && 0 <= j < |t| && i != j
      ensures t[i] != t[j] && t[i].componentIds != t[j].componentIds
    {
      assert t[i] == gs[i + 1] && t[j] == gs[j + 1];
    }
    forall o | o in t ensures o != gs[0] && o.componentIds != gs[0].componentIds {
      var j :| 0 <= j < |t| && t[j] == o;
      assert t[j] == gs[j + 1];
    }
  }

  /** A group object apart from every object of a distinct sequence can head it. */
  lemma {:induction false} ConsDistinct(g: GroupObj, ft: seq<GroupObj>)
    requires DistinctGroups(ft)
    requires forall o | o in ft :: o != g && o.componentIds != g.componentIds
    ensures DistinctGroups([g] + ft)
  {
    var r := [g] + ft;
    forall i, j | 0 <= i < |r| && 0 <= j < |r| && i != j
      ensures r[i] != r[j] && r[i].componentIds != r[j].componentIds
    {
      if i > 0 {
        assert r[i] == ft[i - 1] && r[i] in ft;
      }
      if j > 0 {
        assert r[j] == ft[j - 1] && r[j] in ft;
      }
    }
  }

  /** Filtering keeps group objects and their arrays distinct. */
  lemma {:induction false} FilterObjsDistinct(gs: seq<GroupObj>, gid: string)
    requires DistinctGroups(gs)
    ensures DistinctGroups(Filter(gs, KeepsObj(gid)))
  {
    if gs != [] {
      var t := gs[1..];
      TailDistinct(gs);
      FilterObjsDistinct(t, gid);
      var ft := Filter(t, KeepsObj(gid));
      if gs[0].id != gid {
        assert Filter(gs, KeepsObj(gid)) == [gs[0]] + ft;
        assert forall o | o in ft :: o in t;
        ConsDistinct(gs[0], ft);
      } else {
        assert Filter(gs, KeepsObj(gid)) == ft;
      }
    }
  }

  /** `groups.map(g => g.id === gid ? { ...g, name } : g)`: a renamed group is a new
      object sharing the old one's member array; the others are the same objects. */
  method RenameObjs(gs: seq<GroupObj>, gid: string, name: string) returns (r: seq<GroupObj>)
    requires DistinctGroups(gs)
    ensures |r| == |gs|
    ensures forall i | 0 <= i < |gs| ::
      r[i].componentIds == gs[i].componentIds && (if gs[i].id == gid then fresh(r[i]) else r[i] == gs[i])
    ensures DistinctGroups(r)
    ensures GroupsValue(r) == Organizer.RenameGroups(GroupsValue(gs), gid, name)
  {
    r := [];
    for i := 0 to |gs|
      invariant |r| == i
      invariant forall k | 0 <= k < i ::
        && r[k].componentIds == gs[k].componentIds
        && (if gs[k].id == gid then fresh(r[k]) && r[k].id == gid && r[k].name == name else r[k] == gs[k])
    {
      var g := gs[i];
      if g.id == gid {
        var renamed := new GroupObj(g.id, name, g.componentIds);
        r := r + [renamed];
      } else {
        r := r + [g];
      }
    }
    Organizer.RenameGroupsAt(GroupsValue(gs), gid, name);
    assert forall k | 0 <= k < |gs| :: GroupsValue(r)[k] == Organizer.RenameGroups(GroupsValue(gs), gid, name)[k];
  }

  /** Reordering group objects denotes reordering their groups, and keeps them and
      their arrays distinct and apart from `l`. */
  lemma MovedObjs(gs: seq<GroupObj>, from: nat, to: nat, l: IdList)
    requires from < |gs| && to < |gs|
    requires DistinctGroups(gs) && ListsApart(gs, l)
    ensures GroupsValue(Moved(gs, from, to)) == Moved(GroupsValue(gs), from, to)
    ensures DistinctGroups(Moved(gs, from, to)) && ListsApart(Moved(gs, from, to), l)
  {
    var m := Moved(gs, from, to);
    forall i, j | 0 <= i < |m| && 0 <= j < |m| && i != j
      ensures m[i] != m[j] && m[i].componentIds != m[j].componentIds
    {
      MoveSourceInjective(|gs|, from, to, i, j);
    }
  }

  /** The value of a groups array with one more object at the end. */
  lemma GroupsValueAppend(gs: seq<GroupObj>, g: GroupObj)
    ensures GroupsValue(gs + [g]) == GroupsValue(gs) + [g.Value()]
  {
    var r := gs + [g];
    assert forall i | 0 <= i < |gs| :: r[i] == gs[i];
  }

  /** Appending an object that shares nothing with the others keeps the objects and
      their arrays distinct and apart from `l`. */
  lemma AppendDistinct(gs: seq<GroupObj>, g: GroupObj, l: IdList)
    requires DistinctGroups(gs) && ListsApart(gs, l)
    requires g !in gs && g.componentIds !in ListsOf(gs) && g.componentIds != l
    ensures DistinctGroups(gs + [g]) && ListsApart(gs + [g], l)
  {
    var r := gs + [g];
    forall i, j | 0 <= i < |r| && 0 <= j < |r| && i != j
      ensures r[i] != r[j] && r[i].componentIds != r[j].componentIds
    {
      if i < |gs| && j < |gs| {
        assert r[i] == gs[i] && r[j] == gs[j];
      } else if i < |gs| {
        assert r[i] == gs[i] && r[i].componentIds in ListsOf(gs);
      } else {
        assert r[j] == gs[j] && r[j].componentIds in ListsOf(gs);
      }
    }
  }

  /** The state object `handleAddGroup` stores: a spread copy whose groups array is a
      new one ending with a new, empty group. */
  method AddGroupObj(s: StateObj, name: string, freshId: string) returns (ns: StateObj)
    requires s.Valid()
    ensures fresh(ns) && ns.Valid()
    ensures ns.Value() == old(s.Value()).(groups := old(s.Value()).groups + [ComponentGroup(freshId, name, [])])
  {
    ghost var v := s.Value();
    var g := NewGroup(freshId, name);
    assert s.Value() == v;
    var gs := s.groups + [g];
    GroupsValueAppend(s.groups, g);
    AppendDistinct(s.groups, g, s.ungroupedComponentIds);
    ns := new StateObj(s.components, gs, s.ungroupedComponentIds);
    assert GroupsValue(s.groups) == v.groups;
  }

  /** `{ id: freshId, name, componentIds: [] }`. */
  method NewGroup(freshId: string, name: string) returns (g: GroupObj)
    ensures fresh(g) && fresh(g.componentIds)
    ensures g.Value() == ComponentGroup(freshId, name, [])
  {
    var ids := new IdList([]);
    g := new GroupObj(freshId, name, ids);
  }

  /** The state object `handleDeleteGroup` stores for a group that exists. */
  method DeleteGroupObj(s: StateObj, groupId: string, k: nat) returns (ns: StateObj)
    requires s.Valid() && FindObj(s.groups, groupId) == Some(k)
    ensures fresh(ns) && ns.Valid()
    ensures ns.Value() == Organizer.DeleteGroup(old(s.Value()), groupId)
  {
    ghost var v := s.Value();
    var group := s.groups[k];
    assert group.Value() == v.groups[k];
    var kept := Filter(s.groups, KeepsObj(groupId));
    FilterObjsValue(s.groups, groupId);
    FilterObjsDistinct(s.groups, groupId);
    var ungrouped := new IdList(s.ungroupedComponentIds.items + group.componentIds.items);
    assert GroupsValue(kept) == Filter(v.groups, Organizer.GroupIdIsNot(groupId));
    ns := new StateObj(s.components, kept, ungrouped);
    assert ListsApart(kept, ungrouped);
    assert ns.Value() == Organizer.DeleteGroup(v, groupId);
  }

  /** The state object `handleSaveGroupName` stores for an id being edited and a
      non-blank name. */
  method RenameGroupObj(s: StateObj, gid: string, name: string) returns (ns: StateObj)
    requires s.Valid() && gid != "" && !JsText.IsBlank(name)
    ensures fresh(ns) && ns.Valid()
    ensures ns.Value() == Organizer.SaveGroupName(old(s.Value()), Some(gid), name)
  {
    ghost var v := s.Value();
    var gs := RenameObjs(s.groups, gid, name);
    assert GroupsValue(s.groups) == v.groups;
    assert ListsApart(gs, s.ungroupedComponentIds);
    ns := new StateObj(s.components, gs, s.ungroupedComponentIds);
    assert ns.Value() == v.(groups := Organizer.RenameGroups(v.groups, gid, name));
  }

  /** The state object `handleMoveGroup` stores: the copied groups array loses the
      dragged group and gets it back at the hover position. */
  method MoveGroupObj(s: StateObj, dragIndex: nat, hoverIndex: nat) returns (ns: StateObj)
    requires s.Valid() && dragIndex < |s.groups| && hoverIndex < |s.groups|
    ensures fresh(ns) && ns.Valid()
    ensures ns.Value() == Organizer.MoveGroup(old(s.Value()), dragIndex, hoverIndex)
  {
    var newGroups := s.groups;
    var draggedGroup := newGroups[dragIndex];
    newGroups := RemoveAt(newGroups, dragIndex);
    newGroups := SpliceInsert(newGroups, hoverIndex, draggedGroup);
    SpliceMoveIsMoved(s.groups, dragIndex, hoverIndex);
    MovedObjs(s.groups, dragIndex, hoverIndex, s.ungroupedComponentIds);
    ns := new StateObj(s.components, newGroups, s.ungroupedComponentIds);
  }

  // ---------------------------------------------------------------- the page

  /** The seed state object of a registration, the page's `initialState`. */
  method MakeInitialState(reg: Registration.ComponentRegistration) returns (s: StateObj)
    ensures fresh(s) && s.Valid()
    ensures s.Value() == Registration.InitialState(reg.components)
  {
    var v := Registration.GetInitialState(reg, Registration.DefaultConfig);
    s := BuildState(v);
  }

  /** The item react-dnd hands to the hover handler while a group is dragged; its
      `index` is written by the handler. */
  class GroupDragItem {
    var index: int

    constructor (index0: int)
      ensures index == index0
    {
      index := index0;
    }
  }

  /** The organizer page: its hook state and its handlers. `state` is `null` until
      the load effect has run. */
  class ComponentIndexView {
    var state: StateObj?
    var newGroupName: string
    var editingGroupId: Option<string>
    var editingGroupName: string
    var storageAvailable: bool
    var isUngroupedCollapsed: bool
    var collapsedGroups: set<string>

    ghost predicate Valid()
      reads this, state, if state == null then [] else state.groups
    {
      state != null ==> state.Valid()
    }

    /** The objects a drop writes: the current state's group objects and arrays. */
    ghost function StateFrame(): set<object>
      reads this, state, if state == null then [] else state.groups
    {
      if state == null then {} else state.Repr()
    }

    /** Mounting the page: the collapse flags come from what storage holds under their
        keys; no organizer state yet. */
    constructor (savedUngroupedCollapsed: Option<string>, savedCollapsedGroups: Option<string>,
                 parsedCollapsedGroups: Option<ViewState.Json>)
      ensures Valid() && state == null
      ensures newGroupName == "" && editingGroupId == None && editingGroupName == "" && storageAvailable
      ensures isUngroupedCollapsed == ViewState.RestoreUngroupedCollapsed(savedUngroupedCollapsed)
      ensures collapsedGroups == ViewState.RestoreCollapsedGroups(savedCollapsedGroups, parsedCollapsedGroups)
    {
      state := null;
      newGroupName := "";
      editingGroupId := None;
      editingGroupName := "";
      storageAvailable := true;
      isUngroupedCollapsed := ViewState.RestoreUngroupedCollapsed(savedUngroupedCollapsed);
      collapsedGroups := ViewState.RestoreCollapsedGroups(savedCollapsedGroups, parsedCollapsedGroups);
    }

    /** The storage probe effect, with the probe's outcome as input. */
    method ProbeStorage(available: bool)
      modifies this`storageAvailable
      ensures storageAvailable == available
    {
      storageAvailable := available;
    }

    /** The load effect. `saved` and `parsed` are what storage holds under the state key
        and what `JSON.parse` makes of it; `decoded` is the organizer state that parsed
        object stands for. Any fallback stores the shared `initial` object itself. */
    method LoadState(saved: Option<string>, parsed: Option<ViewState.Json>, decoded: ComponentState, initial: StateObj)
      requires initial.Valid()
      modifies this`state
      ensures Valid()
      ensures ViewState.DecideLoad(storageAvailable, saved, parsed).UseSaved? ==>
        fresh(state) && state.Value() == decoded
      ensures ViewState.DecideLoad(storageAvailable, saved, parsed).UseDefault? ==> state == initial
    {
      var d := ViewState.DecideLoad(storageAvailable, saved, parsed);
      if d.UseSaved? {
        state := BuildState(decoded);
      } else {
        state := initial;
      }
    }

    /** `handleDrop`: nothing happens before the state is loaded; afterwards the new
        state object denotes the value-level drop, and the replaced object, whose arrays
        and group objects the new one shares, denotes the same state except for its own
        ungrouped list when the component came from there. */
    method HandleDrop(item: Organizer.DragItem, targetId: string, targetIndex: int)
      requires Valid()
      modifies this`state, StateFrame()
      ensures Valid()
      ensures old(state) == null ==> state == null
      ensures old(state) != null ==>
        && fresh(state)
        && state.Value() == Organizer.Drop(old(state.Value()), item, targetId, targetIndex)
        && old(state).Value() == if item.sourceId == Organizer.Ungrouped
                                 then state.Value().(ungroupedComponentIds := old(state.ungroupedComponentIds.items))
                                 else state.Value()
    {
      if state == null {
        return;
      }
      var s := state;
      assert s.Repr() == StateFrame();
      assert forall g | g in s.groups :: g in s.Repr();
      assert ListsOf(s.groups) <= s.Repr();
      var ns := DropObj(s, item, targetId, targetIndex);
      SetState(ns, s);
    }

    /** `handleAddGroup`, with `freshId` the id made from the clock: a blank name, or no
        state yet, changes nothing; otherwise a new state object with one more, empty
        group is stored and the name field is cleared. */
    method HandleAddGroup(freshId: string)
      requires Valid()
      modifies this`state, this`newGroupName
      ensures Valid()
      ensures old(state) == null || JsText.IsBlank(old(newGroupName)) ==>
        state == old(state) && newGroupName == old(newGroupName)
      ensures old(state) != null && !JsText.IsBlank(old(newGroupName)) ==>
        && fresh(state)
        && state.Value() == Organizer.AddGroup(old(state.Value()), old(newGroupName), freshId)
        && newGroupName == ""
    {
      if JsText.IsBlank(newGroupName) || state == null {
        return;
      }
      var ns := AddGroupObj(state, newGroupName, freshId);
      SetState(ns, ns);
      ClearNewGroupName();
    }

    /** `handleDeleteGroup(groupId)`: with no state or no such group nothing changes;
        otherwise a new state object without the groups of that id and with a new
        ungrouped array that ends with the first such group's members. */
    method HandleDeleteGroup(groupId: string)
      requires Valid()
      modifies this`state
      ensures Valid()
      ensures old(state) == null ==> state == null
      ensures old(state) != null ==>
        && (Organizer.FindGroup(old(state.Value()).groups, groupId).None? ==> state == old(state))
        && state != null
        && state.Value() == Organizer.DeleteGroup(old(state.Value()), groupId)
    {
      if state == null {
        return;
      }
      ghost var ov := state.Value();
      var k := FindObj(state.groups, groupId);
      assert k == Organizer.FindGroup(ov.groups, groupId);
      if k.None? {
        assert Organizer.DeleteGroup(ov, groupId) == ov;
        return;
      }
      var ns := DeleteGroupObj(state, groupId, k.value);
      SetState(ns, ns);
    }

    /** `handleStartEditGroup(group)`. */
    method StartEditGroup(group: GroupObj)
      modifies this`editingGroupId, this`editingGroupName
      ensures editingGroupId == Some(group.id) && editingGroupName == group.name
    {
      editingGroupId := Some(group.id);
      editingGroupName := group.name;
    }

    /** The `onChange` of the new-group input. */
    method SetNewGroupName(text: string)
      modifies this`newGroupName
      ensures newGroupName == text
    {
      newGroupName := text;
    }

    /** The `onChange` of the group-name editor. */
    method SetEditingGroupName(text: string)
      modifies this`editingGroupName
      ensures editingGroupName == text
    {
      editingGroupName := text;
    }

    /** `handleSaveGroupName`: editing always ends; the state changes only with an
        editing id, a non-blank name and a loaded state, to a new state object whose
        groups of that id are new objects carrying the name. */
    method HandleSaveGroupName()
      requires Valid()
      modifies this`state, this`editingGroupId
      ensures Valid() && editingGroupId == None
      ensures old(state) == null ==> state == null
      ensures old(state) != null ==>
        state != null && state.Value() == Organizer.SaveGroupName(old(state.Value()), old(editingGroupId), editingGroupName)
    {
      if editingGroupId.None? || editingGroupId.value == "" || JsText.IsBlank(editingGroupName) || state == null {
        EndEditing();
        return;
      }
      var ns := RenameGroupObj(state, editingGroupId.value, editingGroupName);
      SetState(ns, ns);
      EndEditing();
    }

    /** `handleMoveGroup(dragIndex, hoverIndex)` for positions of existing groups: the
        copied groups array loses the dragged group and gets it back at the hover
        position, in a new state object. */
    method HandleMoveGroup(dragIndex: int, hoverIndex: int)
      requires Valid()
      requires state != null ==> 0 <= dragIndex < |state.groups| && 0 <= hoverIndex < |state.groups|
      modifies this`state
      ensures Valid()
      ensures old(state) == null ==> state == null
      ensures old(state) != null ==>
        state != null && state.Value() == Organizer.MoveGroup(old(state.Value()), dragIndex, hoverIndex)
    {
      if state == null {
        return;
      }
      var ns := MoveGroupObj(state, dragIndex, hoverIndex);
      SetState(ns, ns);
    }

    /** The drop callback of a container the page renders from the current state,
        under the id `containerId` and with the list `componentIds`: a drop from a
        container with the same id is ignored; any other passes the rendered list's
        length to `handleDrop`, which inserts into the container found under that id. */
    method DropOnContainer(item: Organizer.DragItem, containerId: string, componentIds: seq<string>)
      requires Valid() && state != null
      requires Gestures.Rendered(state.Value(), containerId, componentIds)
      modifies this`state, StateFrame()
      ensures Valid() && state != null
      ensures item.sourceId == containerId ==> state == old(state) && state.Value() == old(state.Value())
      ensures item.sourceId != containerId ==>
        state.Value() == Organizer.Drop(old(state.Value()), item, containerId, |componentIds|)
      ensures item.sourceId != containerId ==>
        && old(Organizer.Container(state.Value(), containerId)).Some?
        && Organizer.Container(state.Value(), containerId)
             == Some(SpliceInsert(old(Organizer.Container(state.Value(), containerId).value), |componentIds|, item.id))
      ensures item.sourceId != containerId && Some(componentIds) == old(Organizer.Container(state.Value(), containerId)) ==>
        Organizer.Container(state.Value(), containerId) == Some(componentIds + [item.id])
    {
      var targetIndex := Gestures.ContainerDropIndex(item, containerId, componentIds);
      if targetIndex.Some? {
        Gestures.RenderedIsContainer(state.Value(), containerId, componentIds);
        Gestures.ContainerDropInserts(state.Value(), item, containerId, |componentIds|);
        HandleDrop(item, containerId, targetIndex.value);
      }
    }

    /** The hover handler of the group card at `hoverIndex`, spanning `top`..`bottom`,
        with the cursor at `clientY`: when the hover rule fires, the groups are
        reordered and the dragged item's index follows the group, so the dragged group
        sits at `item.index` afterwards. */
    method HoverGroup(item: GroupDragItem, hoverIndex: nat, top: real, bottom: real, clientY: real)
      requires Valid()
      requires state != null ==> 0 <= item.index < |state.groups| && hoverIndex < |state.groups|
      modifies this`state, item
      ensures Valid()
      ensures var move := Gestures.ShouldMoveGroup(old(item.index), hoverIndex, top, bottom, clientY);
        && (!move ==> state == old(state) && item.index == old(item.index))
        && (move ==> item.index == hoverIndex)
        && (move && old(state) != null ==>
              && state != null
              && state.Value() == Organizer.MoveGroup(old(state.Value()), old(item.index), hoverIndex)
              && state.Value().groups[item.index] == old(state.Value()).groups[old(item.index)])
    {
      var dragIndex := item.index;
      if Gestures.ShouldMoveGroup(dragIndex, hoverIndex, top, bottom, clientY) {
        ghost var ov := if state == null then None else Some(state.Value());
        HandleMoveGroup(dragIndex, hoverIndex);
        FollowGroup(item, hoverIndex);
        if ov.Some? {
          MovedToTarget(ov.value.groups, dragIndex, hoverIndex);
        }
      }
    }

    /** `item.index = hoverIndex`: the drag item is not part of the organizer state. */
    method FollowGroup(item: GroupDragItem, hoverIndex: nat)
      modifies item
      ensures item.index == hoverIndex
      ensures state == old(state) && Valid() == old(Valid())
      ensures state != null ==> state.Value() == old(state.Value())
    {
      item.index := hoverIndex;
    }

    /** `setState(ns)`: storing a state object writes no state object, so `ns` and the
        replaced object `prior` denote what they did. */
    method SetState(ns: StateObj, ghost prior: StateObj)
      modifies this`state
      ensures state == ns
      ensures ns.Valid() == old(ns.Valid()) && ns.Value() == old(ns.Value())
      ensures prior.Value() == old(prior.Value())
    {
      state := ns;
    }

    /** `setNewGroupName('')`. */
    method ClearNewGroupName()
      modifies this`newGroupName
      ensures newGroupName == ""
      ensures state == old(state) && Valid() == old(Valid())
      ensures state != null ==> state.Value() == old(state.Value())
    {
      newGroupName := "";
    }

    /** `setEditingGroupId(null)`. */
    method EndEditing()
      modifies this`editingGroupId
      ensures editingGroupId == None
      ensures state == old(state) && Valid() == old(Valid())
      ensures state != null ==> state.Value() == old(state.Value())
    {
      editingGroupId := None;
    }

    /** The collapse button of group `id`: a copy of the set with `id` toggled. */
    method ToggleGroupCollapsed(id: string)
      modifies this`collapsedGroups
      ensures collapsedGroups == ViewState.Toggled(old(collapsedGroups), id)
    {
      var newSet := collapsedGroups;
      if id in newSet {
        newSet := newSet - {id};
      } else {
        newSet := newSet + {id};
      }
      collapsedGroups := newSet;
    }

    /** The collapse button of the ungrouped list. */
    method ToggleUngroupedCollapsed()
      modifies this`isUngroupedCollapsed
      ensures isUngroupedCollapsed == !old(isUngroupedCollapsed)
    {
      isUngroupedCollapsed := !isUngroupedCollapsed;
    }
  }
}
