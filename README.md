# Component library organizer and to-do demo hosts, in Dafny

This project models the component-library organizer of the FrankViteReact devtools and the state handlers of the to-do demo hosts.

The organizer is the `ComponentIndex` page. It keeps an organizer state with three parts:
- `components`: a record of component descriptors keyed by id;
- `groups`: an ordered list of named groups of component ids;
- `ungroupedComponentIds`: the list of ids that are in no group.

The user changes this state by dragging component cards between containers, where a container is the ungrouped list or a group. The user can also add, rename, delete and reorder groups, and can collapse the groups and the ungrouped list. The seed state comes from a component registration: every registered id is ungrouped and there are no groups.

The model has two layers.

- **Values.** Modules `Types`, `Organizer`, `Gestures`, `ViewState` and `Registration` describe each handler as a function from the old state value to the new one. The lemmas beside them state what the handlers promise:
  - a drop moves an id and preserves the multiset of ids when the id occurs once in an existing source and the target exists (a missing target loses the id, a missing source group adds a copy);
  - deleting a group appends its members in order;
  - reordering groups is a permutation;
  - renaming touches only names;
  - the handlers preserve the partition invariant (every registered id in exactly one container, once) and distinct group ids, under these conditions: a drop needs a source container that exists and holds the id, and a target that exists; adding a group needs a fresh id; deleting relies on distinct group ids, without which the members of the later groups sharing the id are lost.
- **Objects.** Module `ComponentIndex` models the page's state as JavaScript objects:
  - `StateObj`: the state object;
  - `GroupObj`: a group object;
  - `IdList`: an id array;
  - `ComponentIndexView`: the page's hook state and its handlers.

  Each handler is a method whose `ensures` ties the value of the new state object to the value-level function applied to the old value.

`handleDrop` copies the state shallowly. It reassigns the source group's `componentIds` and then `splice`s the target array in place. So the old and the new state objects share their group objects and arrays. `ComponentIndex.ComponentIndexView.HandleDrop` keeps this aliasing. Its contract also says what the replaced object denotes afterwards: the new state, except that it keeps its own ungrouped list when the component came from there.

So `handleDrop` mutates arrays and group objects that the previous state shares (ComponentIndex.tsx:357-376), rather than building a fresh state. The model keeps this in-place behaviour.

The to-do hosts are pure list transforms over `Todo` records: complete by id, delete by id, delete all completed, and a single-record update (`Todos`, `TodoListHost`, `TodoSummaryHost`, `SampleTodoSummaryHost`, `TodoItemHost`).

JavaScript details are written out:
- `splice` clamps its start index (`Lists.SpliceStart`).
- `trim` removes the ECMAScript white-space set (`JsText`).
- `find` takes the first match (`Lists.IndexOf`).
- `reduce` writes the record entry by entry, so a later component overwrites an earlier one with the same id.

Group ids are not assumed unique.

## Model

| member | source | states |
|---|---|---|
| Lists.IndexOf | src/devtools/components/ComponentIndex.tsx:364 | `find` yields the first position holding the value, and nothing exactly when the value is absent |
| Lists.SpliceStart | src/devtools/components/ComponentIndex.tsx:372 | `splice`'s start is the requested index when in range, the length when beyond it, and never past the end |
| Lists.SpliceInsert | src/devtools/components/ComponentIndex.tsx:372-376 | inserting with `splice(i, 0, x)` adds exactly one `x`, at the clamped start, and keeps every other element |
| Lists.RemoveAt | src/devtools/components/ComponentIndex.tsx:446 | `splice(k, 1)` removes exactly the element at `k` |
| Lists.Moved | src/devtools/components/ComponentIndex.tsx:446-448 | reference definition of moving one element: each position reads a known source position |
| Lists.SpliceMoveIsMoved | src/devtools/components/ComponentIndex.tsx:446-448 | the two splices of `handleMoveGroup` equal the reference move |
| Lists.MovedIsPermutation | src/devtools/components/ComponentIndex.tsx:446-448 | a move is a permutation |
| Lists.MovedToTarget | src/devtools/components/ComponentIndex.tsx:446-448 | the moved element lands at the hover index; moving onto itself changes nothing |
| Lists.MovedInverse | src/devtools/components/ComponentIndex.tsx:446-448 | moving back from the hover index to the drag index restores the list |
| Lists.Filter | src/devtools/components/ComponentIndex.tsx:362 | `filter` keeps only elements of the input that pass the test, never more than the input |
| Lists.FilterMultiset | src/devtools/components/ComponentIndex.tsx:362 | `filter` keeps every passing element as often as it occurs and drops every failing one |
| Lists.FilterIsSubsequence | src/devtools/components/ComponentIndex.tsx:410 | `filter` keeps the relative order of what it keeps |
| Lists.FilterLength | src/devtools/hosts/TodoListHost.tsx:19 | the length after `filter` is the number of passing elements |
| Lists.FilterIdempotent | src/hostcomponents/TodoSummaryHost.tsx:13 | filtering twice with the same test equals filtering once |
| Lists.FilterKeepsAll | src/hostcomponents/TodoSummaryHost.tsx:13 | a filter that every element passes returns the list unchanged |
| Lists.CountComplement | src/hostcomponents/TodoSummaryHost.tsx:13 | the elements passing a test and those passing its negation add up to the length |
| JsText.TrimStart | src/devtools/components/ComponentIndex.tsx:385 | the result is a suffix of the input that does not start with white space |
| JsText.TrimStartRemovesWhiteSpace | src/devtools/components/ComponentIndex.tsx:385 | every character that `TrimStart` removes is white space |
| JsText.TrimEnd | src/devtools/components/ComponentIndex.tsx:385 | the result is a prefix of the input that does not end with white space |
| JsText.TrimEndRemovesWhiteSpace | src/devtools/components/ComponentIndex.tsx:385 | every character that `TrimEnd` removes is white space |
| JsText.BlankIffAllWhiteSpace | src/devtools/components/ComponentIndex.tsx:385 | `!name.trim()` holds exactly when every character of the name is white space |
| JsText.TrimStartKeeps | src/devtools/components/ComponentIndex.tsx:423 | trimming the start never removes a non-white-space character |
| Organizer.FindGroup | src/devtools/components/ComponentIndex.tsx:364 | `find` yields the first position whose group has the id, and nothing exactly when no group has it |
| Organizer.SetContainer | src/devtools/components/ComponentIndex.tsx:361-378 | replacing one container's list leaves the record, the number, ids and names of the groups, and every other container untouched |
| Organizer.ContainerAfterSet | src/devtools/components/ComponentIndex.tsx:361-378 | after replacing container `cid`, it holds the new list and every other container holds what it held |
| Organizer.MembersAppend | src/devtools/types/index.ts:16 | the members of two runs of groups are the members of each, in order |
| Organizer.MembersUpdate | src/devtools/components/ComponentIndex.tsx:366 | replacing one group's list changes the multiset of all group members by exactly the old and new lists |
| Organizer.MembersAround | src/devtools/components/ComponentIndex.tsx:410 | the members of the groups are those before a group, its own, and those after it |
| Organizer.MembersSameLists | src/devtools/components/ComponentIndex.tsx:430-432 | groups with the same lists position by position have the same members |
| Organizer.SetContainerIds | src/devtools/components/ComponentIndex.tsx:361-378 | replacing a container's list changes the multiset of all ids by exactly the old and new lists |
| Organizer.ContainerWithinAllIds | src/devtools/components/ComponentIndex.tsx:361-368 | each container's ids are among all ids |
| Organizer.WithoutSingle | src/devtools/components/ComponentIndex.tsx:362 | filtering out an id that occurs once removes exactly that one occurrence |
| Organizer.Drop | src/devtools/components/ComponentIndex.tsx:349-381 | the state `handleDrop` stores: removal from the source, then a splice into the target; the record, the number of groups and their ids are kept |
| Organizer.DropMovesComponent | src/devtools/components/ComponentIndex.tsx:349-381 | between two different existing containers, a drop removes the id from the source and puts it at the clamped target index, which is `targetIndex` when in range; everything else is kept: the record, the groups' ids and names, each other group, and the ungrouped list when neither end is ungrouped |
| Organizer.DropKeepsOtherContainers | src/devtools/components/ComponentIndex.tsx:361-378 | a drop leaves every container that is neither the source nor the target as it was |
| Organizer.RemoveFromIds | src/devtools/components/ComponentIndex.tsx:361-368 | removing an id that occurs once in its source removes exactly one id from the whole state |
| Organizer.InsertIntoIds | src/devtools/components/ComponentIndex.tsx:371-378 | inserting into an existing target adds exactly that one id to the whole state |
| Organizer.RemoveFromKeepsContainers | src/devtools/components/ComponentIndex.tsx:361-368 | removal does not create or destroy containers |
| Organizer.DropPreservesIds | src/devtools/components/ComponentIndex.tsx:349-381 | a drop of an id that occurs once in its existing source, into an existing target, preserves the multiset of ids over all containers |
| Organizer.DropPreservesPartition | src/devtools/components/ComponentIndex.tsx:349-381 | if every registered id is in exactly one container once, a drop from the id's container into an existing one keeps that so |
| Organizer.DropToMissingTarget | src/devtools/components/ComponentIndex.tsx:371-378 | with an unknown target the id is removed from the source and inserted nowhere: all of its copies in the source are lost |
| Organizer.DropFromMissingSource | src/devtools/components/ComponentIndex.tsx:361-368 | with an unknown source group the id is only inserted, so the state gains one copy of it |
| Organizer.DropPreservesInvariant | src/devtools/components/ComponentIndex.tsx:349-381 | a drop keeps the partition and the distinct group ids |
| Organizer.AddGroup | src/devtools/components/ComponentIndex.tsx:384-399 | the state `handleAddGroup` stores: the record and ungrouped list are kept, and the old groups stay as a prefix of at most one more group |
| Organizer.AddGroupSpec | src/devtools/components/ComponentIndex.tsx:384-399 | a blank name changes nothing; otherwise exactly one empty group, with the untrimmed name and the generated id, is appended and the record and ungrouped list are kept; no container gains or loses an id; the partition is kept, and so are distinct group ids when the new id is fresh |
| Organizer.DeleteGroup | src/devtools/components/ComponentIndex.tsx:402-413 | the state `handleDeleteGroup` stores: the record is kept, no group is added, and the old ungrouped list is a prefix of the new one |
| Organizer.DeleteGroupSpec | src/devtools/components/ComponentIndex.tsx:402-413 | an unknown id changes nothing; otherwise no group with that id is left, the others keep their order and multiplicity, and the ungrouped list becomes the old list followed by the group's members in order |
| Organizer.MembersFilterOut | src/devtools/components/ComponentIndex.tsx:410 | with distinct group ids, filtering a group out removes exactly its members from the members of all groups |
| Organizer.DeleteGroupPreservesInvariant | src/devtools/components/ComponentIndex.tsx:402-413 | deleting a group keeps the partition and the distinct group ids |
| Organizer.FilterUniqueIds | src/devtools/components/ComponentIndex.tsx:410 | filtering keeps group ids distinct |
| Organizer.DeleteGroupWithRepeatedIdLosesMembers | src/devtools/components/ComponentIndex.tsx:405-411 | when two groups share an id, deleting it removes both groups but returns only the first one's members, so a partitioned state loses an id |
| Organizer.RenameGroups | src/devtools/components/ComponentIndex.tsx:430-432 | the `map` keeps the number of groups |
| Organizer.RenameGroupsAt | src/devtools/components/ComponentIndex.tsx:430-432 | the `map` renames exactly the groups with the edited id and keeps all others |
| Organizer.RenameGroupsKeeps | src/devtools/components/ComponentIndex.tsx:430-432 | renaming keeps each group's id and list, hence the members and distinct ids, and renames exactly the groups with the id |
| Organizer.SaveGroupName | src/devtools/components/ComponentIndex.tsx:422-436 | the state `handleSaveGroupName` stores: record, ungrouped list and number of groups are kept |
| Organizer.SaveGroupNameSpec | src/devtools/components/ComponentIndex.tsx:422-436 | with no editing id, an empty one, or a blank name nothing changes; otherwise only the names of the groups with that id change, to the untrimmed name; ids, members, order, record and ungrouped list are kept, and so is the invariant |
| Organizer.RenameGroupsLastWins | src/devtools/components/ComponentIndex.tsx:430-432 | renaming twice equals renaming once with the second name |
| Organizer.RemoveAtMembers | src/devtools/components/ComponentIndex.tsx:446 | removing a group removes exactly its members |
| Organizer.InsertAtMembers | src/devtools/components/ComponentIndex.tsx:448 | inserting a group adds exactly its members |
| Organizer.MovedMembers | src/devtools/components/ComponentIndex.tsx:446-448 | reordering groups keeps the multiset of group members |
| Organizer.MoveGroup | src/devtools/components/ComponentIndex.tsx:439-454 | the state `handleMoveGroup` stores: record, ungrouped list and number of groups are kept, and the dragged group sits at the hover index |
| Organizer.MoveGroupSpec | src/devtools/components/ComponentIndex.tsx:439-454 | for in-range indices the groups are permuted, with the same length and the dragged group at the hover index; the rest of the state is kept; equal indices change nothing; moving back restores the state; the invariant is kept |
| Organizer.AddMoveDeleteSession | src/devtools/components/ComponentIndex.tsx:349-413 | from `a`, `b`, `c` ungrouped: adding "Todo", dropping `b` into it and deleting it leaves `a`, `c`, `b` ungrouped and no groups |
| Gestures.ContainerDropIndex | src/devtools/components/ComponentIndex.tsx:119-133 | a drop from the container itself is ignored; any other drop targets the container's current length |
| Gestures.RenderedIsContainer | src/devtools/components/ComponentIndex.tsx:570-599 | every container the page renders, ungrouped or a group, names a container that `handleDrop` finds |
| Gestures.RenderedUnderUniqueIds | src/devtools/components/ComponentIndex.tsx:570-599 | with distinct group ids, none of them `ungrouped`, each rendered container's list is the list `handleDrop` finds under its id |
| Gestures.ContainerDropInserts | src/devtools/components/ComponentIndex.tsx:130-132 | a drop passed on with a container id from elsewhere splices the id into the container found under that id at the given index, and appends it when the index is that container's length |
| Gestures.DropOnLaterSameIdGroup | src/devtools/components/ComponentIndex.tsx:130-132 | with two groups sharing an id, a drop on the second one passes its length 1, and the id lands at position 1 of the first group |
| Gestures.ContainerDropAppends | src/devtools/components/ComponentIndex.tsx:119-133 | a drop accepted by a container appends the id to it, removes the id from an existing source, and keeps every other container |
| Gestures.ShouldMoveGroup | src/devtools/components/ComponentIndex.tsx:196-235 | the reorder fires exactly when the indices differ and the cursor has reached the card's vertical midpoint in the drag direction |
| ViewState.RestoreUngroupedCollapsed | src/devtools/components/ComponentIndex.tsx:266-269 | the ungrouped list starts collapsed exactly when storage holds the string `true` |
| ViewState.BoolToString | src/devtools/components/ComponentIndex.tsx:345 | the flag written by the save effect is non-empty and restores to the same flag |
| ViewState.RestoreCollapsedGroups | src/devtools/components/ComponentIndex.tsx:271-282 | with nothing saved, an unparsable value or a non-array the set is empty; for an array it holds exactly its string elements |
| ViewState.RestoreAfterPersist | src/devtools/components/ComponentIndex.tsx:271-282 | restoring the array the save effect writes gives back the set of ids |
| ViewState.IndexNameIsDigits | src/devtools/components/ComponentIndex.tsx:306 | array property names are digit strings |
| ViewState.DecideLoad | src/devtools/components/ComponentIndex.tsx:290-323 | the saved state is used exactly when storage is available, a non-empty value is saved, it parses, and it is an object with the three state keys; otherwise each fallback reason holds exactly in its case |
| ViewState.ArrayLacksStateKeys | src/devtools/components/ComponentIndex.tsx:303-309 | a parsed array never has the key `components` |
| ViewState.MissingGroupsRejected | src/devtools/components/ComponentIndex.tsx:303-314 | a saved object without `groups` falls back to the default state |
| ViewState.Toggled | src/devtools/components/ComponentIndex.tsx:517-525 | toggling a group flips its membership in the collapsed set and keeps every other id |
| ViewState.ToggledTwice | src/devtools/components/ComponentIndex.tsx:517-525 | toggling a group twice restores the set |
| Registration.RecordOf | src/devtools/config/components.ts:17-20 | the record `reduce` builds has at most one entry per registration |
| Registration.InitialState | src/devtools/config/components.ts:14-28 | the seed state: no groups, one ungrouped id per registration, at most one record entry per registration |
| Registration.GetInitialState | src/devtools/config/components.ts:16-27 | the loop over `reduce` builds the seed state: no groups, the registered ids in order as ungrouped, as many as there are registrations, independent of the configuration |
| Registration.RecordKeys | src/devtools/config/components.ts:17-20 | the record's keys are exactly the registered ids |
| Registration.RecordEntries | src/devtools/config/components.ts:17-20 | every record entry is a registered component whose id is its key |
| Registration.LaterEntryWins | src/devtools/config/components.ts:17-20 | the entry for an id is its last registration |
| Registration.UniqueIdsRecord | src/devtools/config/components.ts:17-25 | with distinct ids the record has one entry per registration and its keys are the ungrouped ids, each once |
| Registration.UniqueIdsPartition | src/devtools/config/components.ts:14-28 | with distinct ids the seed state satisfies the organizer invariant |
| Registration.TodoSeed | src/devtools/registrations/todoComponents.ts:4-31 | the to-do registration seeds a valid state with its four ids ungrouped in order |
| Todos.DropCompletedSpec | src/hostcomponents/TodoSummaryHost.tsx:13 | filtering out completed todos leaves no completed one, keeps each incomplete one as often and in order, has the length of the incomplete count, changes nothing when none is completed, and is idempotent |
| TodoSummaryHost.HandleDeleteAllCompleted | src/hostcomponents/TodoSummaryHost.tsx:12-14 | the result is no longer than the list, and holds only incomplete todos from the list |
| TodoSummaryHost.DeleteAllCompletedSpec | src/hostcomponents/TodoSummaryHost.tsx:12-14 | no completed todo remains; incomplete ones are kept in order; the length is the incomplete count; no change without completed todos; idempotent |
| TodoSummaryHost.DeleteAllCompletedInitial | src/hostcomponents/TodoSummaryHost.tsx:6-14 | on the initial list only the completed second todo goes |
| SampleTodoSummaryHost.HandleDeleteAllCompleted | src/devtools/samplehosts/SampleTodoSummaryHost.tsx:12-14 | the result is no longer than the list, and holds only incomplete todos from the list |
| SampleTodoSummaryHost.DeleteAllCompletedSpec | src/devtools/samplehosts/SampleTodoSummaryHost.tsx:12-14 | no completed todo remains; incomplete ones are kept in order; the length is the incomplete count; no change without completed todos; idempotent |
| SampleTodoSummaryHost.DeleteAllCompletedInitial | src/devtools/samplehosts/SampleTodoSummaryHost.tsx:6-14 | on the initial list only the completed second todo goes |
| TodoListHost.HandleCompletedChange | src/devtools/hosts/TodoListHost.tsx:12-16 | the list keeps its length |
| TodoListHost.CompletedChangeSpec | src/devtools/hosts/TodoListHost.tsx:12-16 | length, order, ids and titles are kept; todos with the id get the new flag, others keep theirs |
| TodoListHost.CompletedChangeIdempotent | src/devtools/hosts/TodoListHost.tsx:13-15 | applying the change twice equals applying it once |
| TodoListHost.HandleDelete | src/devtools/hosts/TodoListHost.tsx:18-20 | the result is no longer than the list, and holds only todos from the list without the id |
| TodoListHost.DeleteSpec | src/devtools/hosts/TodoListHost.tsx:18-20 | no todo with the id remains; others keep their order and multiplicity; the length drops by the number of matches; an absent id changes nothing |
| TodoItemHost.HandleCompletedChange | src/hostcomponents/TodoItemHost.tsx:12-14 | the todo gets the new flag and keeps its id and title |
| TodoItemHost.CompletedChangeIgnoresId | src/hostcomponents/TodoItemHost.tsx:12-13 | the id argument does not matter, and setting the old flag back restores the todo |
| TodoItemHost.HandleDelete | src/hostcomponents/TodoItemHost.tsx:16-18 | the todo is unchanged and the only effect is the alert |
| ComponentIndex.IdList.Insert | src/devtools/components/ComponentIndex.tsx:372-376 | `splice` in place: the array's contents become the splice insertion of the old contents |
| ComponentIndex.GroupsValue | src/devtools/types/index.ts:14-18 | the value of a groups array is the value of each group object, position by position |
| ComponentIndex.FindObj | src/devtools/components/ComponentIndex.tsx:364 | `find` over group objects agrees with `find` over their values |
| ComponentIndex.ReplaceGroupList | src/devtools/components/ComponentIndex.tsx:366 | reassigning one shared group object's `componentIds` to a fresh array changes that group's value only |
| ComponentIndex.InsertIntoGroupList | src/devtools/components/ComponentIndex.tsx:376 | splicing one group's array in place changes that group's value only |
| ComponentIndex.BuildState | src/devtools/components/ComponentIndex.tsx:310 | a state value becomes fresh, unshared objects denoting it |
| ComponentIndex.RemoveFromUngrouped | src/devtools/components/ComponentIndex.tsx:362 | the copy's ungrouped field gets a fresh filtered array; the groups are untouched |
| ComponentIndex.RemoveFromGroup | src/devtools/components/ComponentIndex.tsx:366 | the shared source group object gets a fresh filtered array; only that group's value changes |
| ComponentIndex.RemoveObj | src/devtools/components/ComponentIndex.tsx:361-368 | the removal step reassigns a fresh array to the ungrouped field or to the shared source group object, denoting the value-level removal |
| ComponentIndex.InsertIntoUngrouped | src/devtools/components/ComponentIndex.tsx:372 | the ungrouped array is spliced in place; the groups keep their value, and any other array keeps its contents |
| ComponentIndex.InsertIntoGroup | src/devtools/components/ComponentIndex.tsx:376 | the target group's array is spliced in place; only that group's value changes, and the ungrouped array and any other array keep their contents |
| ComponentIndex.InsertObj | src/devtools/components/ComponentIndex.tsx:371-378 | the insertion step splices the target array in place, denoting the value-level insertion |
| ComponentIndex.DropObj | src/devtools/components/ComponentIndex.tsx:349-381 | the shallow copy shares the record and groups array; it denotes the value-level drop, and the old object afterwards denotes the same except for its own ungrouped list when that was the source |
| ComponentIndex.FilterObjsValue | src/devtools/components/ComponentIndex.tsx:410 | filtering group objects by id agrees with filtering their values |
| ComponentIndex.FilterObjsDistinct | src/devtools/components/ComponentIndex.tsx:410 | filtering keeps group objects distinct |
| ComponentIndex.RenameObjs | src/devtools/components/ComponentIndex.tsx:430-432 | the `map` makes new objects for the edited groups, sharing their arrays, keeps the other objects, and denotes the value-level rename |
| ComponentIndex.MovedObjs | src/devtools/components/ComponentIndex.tsx:442-448 | moving group objects agrees with moving their values |
| ComponentIndex.NewGroup | src/devtools/components/ComponentIndex.tsx:387-391 | the new group is a fresh object with a fresh, empty member array, the generated id and the untrimmed name |
| ComponentIndex.AddGroupObj | src/devtools/components/ComponentIndex.tsx:387-396 | the new state object denotes the old state with one empty group, with the given name and id, appended, and keeps objects and arrays apart |
| ComponentIndex.DeleteGroupObj | src/devtools/components/ComponentIndex.tsx:405-412 | the new state object denotes the value-level `DeleteGroup` |
| ComponentIndex.RenameGroupObj | src/devtools/components/ComponentIndex.tsx:428-433 | the new state object denotes the value-level rename |
| ComponentIndex.MoveGroupObj | src/devtools/components/ComponentIndex.tsx:442-453 | the copied and spliced groups array, in a new state object, denotes the value-level `MoveGroup` |
| ComponentIndex.MakeInitialState | src/devtools/components/ComponentIndex.tsx:22 | the module-level initial state object denotes the registration's seed |
| ComponentIndex.GroupDragItem.constructor | src/devtools/components/ComponentIndex.tsx:188 | the dragged group item carries the group's index |
| ComponentIndex.ComponentIndexView.constructor | src/devtools/components/ComponentIndex.tsx:259-282 | mounting: no state yet, empty inputs, storage assumed available, and the two collapse flags restored from storage |
| ComponentIndex.ComponentIndexView.ProbeStorage | src/devtools/components/ComponentIndex.tsx:285-287 | the probe's outcome is stored |
| ComponentIndex.ComponentIndexView.LoadState | src/devtools/components/ComponentIndex.tsx:290-323 | the saved state is stored exactly when the load check accepts it, otherwise the shared initial state object |
| ComponentIndex.ComponentIndexView.SetState | src/devtools/components/ComponentIndex.tsx:380 | storing a state object changes no state object's value |
| ComponentIndex.ComponentIndexView.ClearNewGroupName | src/devtools/components/ComponentIndex.tsx:398 | clearing the input leaves the state as it was |
| ComponentIndex.ComponentIndexView.EndEditing | src/devtools/components/ComponentIndex.tsx:424 | ending the edit leaves the state as it was |
| ComponentIndex.ComponentIndexView.FollowGroup | src/devtools/components/ComponentIndex.tsx:241 | the drag item's index is set and the organizer state is left as it was |
| ComponentIndex.ComponentIndexView.HandleDrop | src/devtools/components/ComponentIndex.tsx:349-381 | no-op before loading; afterwards the new state object denotes the value-level `Drop`, and the replaced object denotes the same except for its own ungrouped list when that was the source |
| ComponentIndex.ComponentIndexView.HandleAddGroup | src/devtools/components/ComponentIndex.tsx:384-399 | no-op with a blank name or no state; otherwise the state denotes `AddGroup` and the input is cleared |
| ComponentIndex.ComponentIndexView.HandleDeleteGroup | src/devtools/components/ComponentIndex.tsx:402-413 | no-op with no state or an unknown group; otherwise the state denotes `DeleteGroup` |
| ComponentIndex.ComponentIndexView.StartEditGroup | src/devtools/components/ComponentIndex.tsx:416-419 | editing starts with the group's id and current name |
| ComponentIndex.ComponentIndexView.SetNewGroupName | src/devtools/components/ComponentIndex.tsx:484 | the new-group input stores the typed text |
| ComponentIndex.ComponentIndexView.SetEditingGroupName | src/devtools/components/ComponentIndex.tsx:536 | the name editor stores the typed text |
| ComponentIndex.ComponentIndexView.HandleSaveGroupName | src/devtools/components/ComponentIndex.tsx:422-436 | editing always ends; the state denotes `SaveGroupName` of the editing id and name |
| ComponentIndex.ComponentIndexView.HandleMoveGroup | src/devtools/components/ComponentIndex.tsx:439-454 | with in-range indices the state denotes `MoveGroup` |
| ComponentIndex.ComponentIndexView.DropOnContainer | src/devtools/components/ComponentIndex.tsx:119-133 | for a container rendered from the state with its own id and list: a drop from a container with that id changes nothing; any other drop is `Drop` with the rendered list's length, splicing the id into the container found under that id at that index, which appends it when the rendered list is that container's list |
| ComponentIndex.ComponentIndexView.HoverGroup | src/devtools/components/ComponentIndex.tsx:196-242 | when the hover rule fires, the groups are reordered and `item.index` becomes the hover index, where the dragged group now sits; otherwise nothing changes |
| ComponentIndex.ComponentIndexView.ToggleGroupCollapsed | src/devtools/components/ComponentIndex.tsx:517-525 | the collapsed set becomes the toggled copy |
| ComponentIndex.ComponentIndexView.ToggleUngroupedCollapsed | src/devtools/components/ComponentIndex.tsx:589 | the ungrouped collapse flag flips |

## Left out

- Rendering (JSX, `Link` navigation, icons, the loading and warning banners) and the react-dnd wiring are not modelled. Only the drop-index choice, the hover decision and the handlers they call are. This covers ComponentIndex.tsx:31-256 and 456-608.
- The `ref.current` null guards in the drop and hover callbacks are not modelled. A rendered container always has its element.
- A missing client offset in the hover callback is not modelled. The source asserts it with `!`.
- localStorage is left out: reads and writes, the probe `isLocalStorageAvailable` (src/devtools/utils/storage.ts:7-17), and the three save effects (ComponentIndex.tsx:326-346). Their outcomes enter as parameters: the probe result, the saved strings, and the parsed values.
- `getItem` throwing inside the load effect is not modelled: it takes the same fallback as a parse failure. A throw in the collapse restorers or the save effects is not modelled either.
- `JSON.parse` and `JSON.stringify` are foreign calls. A parsed value is abstracted as the `ViewState.Json` kinds, with only the key set of an object.
- ComponentIndex.ComponentIndexView.LoadState takes the decoded organizer state as a parameter. A saved object that passes the key check but is ill-typed cannot be represented. Idempotent re-serialization of the persisted state is not stated, because serialization is not modelled.
- ViewState.RestoreCollapsedGroups keeps only the string elements of a parsed array. `new Set(parsed)` would also keep numbers and other values, but no group id can match them.
- `Date.now()` in the new group id (ComponentIndex.tsx:388) is a clock read. The id enters `HandleAddGroup` as the parameter `freshId`, and its uniqueness is not assumed.
- ComponentIndex.ComponentIndexView.HandleMoveGroup requires in-range indices. The hover rule only ever passes such indices. Out of range, `splice` would insert `undefined` into the groups.
- The hover coordinates are modelled as real numbers, not IEEE doubles.
- The record keyed by id is a Dafny map. JavaScript quirks of keys such as `__proto__` are not modelled.
- `getStorageKeys` (ComponentIndex.tsx:7, 19) is not part of this model. src/devtools/utils/storage.ts exports the three key constants and `isLocalStorageAvailable`, but no `getStorageKeys`, so the keys are taken from those constants, which match `defaultConfig.storageKeys`.
- To-do ids are JavaScript numbers compared with `===`. They are modelled as unbounded integers (`int` in module `Todos`); non-integral, `NaN` and signed-zero ids are not represented.
- The source shares the module-level `initialState` object across loads, and a drop from the ungrouped list replaces the ungrouped array before any in-place splice. The model stores the shared object, but it does not track this sharing across later mounts of the page.
- The Electron shell, the routing and layout files, the static registration tables other than the to-do fixture, and `AddTodoFormHost` (only an alert) are not modelled.
- Organizer.DeleteGroup follows the code. With repeated group ids it drops every group with that id, but it returns only the first one's members. The lemma `Organizer.DeleteGroupWithRepeatedIdLosesMembers` records this, and preserving the invariant is proved only for distinct group ids.
