/** The organizer's data as plain values: a component descriptor, a named group of
    component ids, and the whole organizer state. */
module Types {

  /** A demoable UI component: its id, display name, route and description. */
  datatype ComponentInfo = ComponentInfo(id: string, name: string, path: string, description: string)

  /** A user-made group: its id, its (untrimmed) name and its members in order. */
  datatype ComponentGroup = ComponentGroup(id: string, name: string, componentIds: seq<string>)

  /** The organizer state: the descriptor record keyed by id, the groups in display
      order, and the ids that belong to no group, in display order. */
  datatype ComponentState = ComponentState(
    components: map<string, ComponentInfo>,
    groups: seq<ComponentGroup>,
    ungroupedComponentIds: seq<string>)
}
