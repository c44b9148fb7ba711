/** The component registration: the list of demoable components handed to the
    organizer, and the seed state built from it (every registered id ungrouped, no
    groups, a descriptor record keyed by id). */
module Registration {
  import opened Types
  import Organizer

  /** Local-storage keys the organizer persists under. */
  datatype StorageKeys = StorageKeys(componentGroups: string, collapsedGroups: string, ungroupedCollapsed: string)

  /** CSS class names for the organizer's page. */
  datatype Styling = Styling(containerClass: string, cardClass: string, headerClass: string)

  /** The devtools configuration passed to `getInitialState`. */
  datatype DevToolsConfig = DevToolsConfig(
    basePath: string,
    componentRoutePrefix: string,
    storageKeys: StorageKeys,
    styling: Styling)

  const DefaultConfig := DevToolsConfig(
    "/devindex",
    "/components",
    StorageKeys("componentGroups", "componentGroupsCollapsedGroups", "componentGroupsIsUngroupedCollapsed"),
    Styling("container mx-auto p-4 max-w-6xl", "bg-white shadow-md rounded p-6", "text-2xl font-bold mb-4"))

  /** What `createComponentRegistration(components)` returns: the list it was given,
      kept as is; its `getInitialState` is the method `GetInitialState` below. */
  datatype ComponentRegistration = ComponentRegistration(components: seq<ComponentInfo>)

  /** `components.map(c => c.id)`. */
  function Ids(cs: seq<ComponentInfo>): seq<string>
  {
    seq(|cs|, i requires 0 <= i < |cs| => cs[i].id)
  }

  /** The record `reduce` builds: entries assigned in registration order, so a later
      component overwrites an earlier one with the same id. */
  function RecordOf(cs: seq<ComponentInfo>): (r: map<string, ComponentInfo>)
    ensures |r| <= |cs|
  {
    if cs == [] then map[] else RecordOf(cs[..|cs| - 1])[cs[|cs| - 1].id := cs[|cs| - 1]]
  }

  /** The seed state of a registration. */
  function InitialState(cs: seq<ComponentInfo>): (r: ComponentState)
    ensures r.groups == [] && |r.ungroupedComponentIds| == |cs| && |r.components| <= |cs|
  {
    ComponentState(RecordOf(cs), [], Ids(cs))
  }

  ghost predicate UniqueIds(cs: seq<ComponentInfo>)
  {
    forall i, j | 0 <= i < j < |cs| :: cs[i].id != cs[j].id
  }

  /** `registration.getInitialState(config)`: fills the record one component at a time,
      then lists every registered id, in order, as ungrouped. The configuration is
      not consulted. */
  method GetInitialState(reg: ComponentRegistration, config: DevToolsConfig) returns (st: ComponentState)
    ensures st == InitialState(reg.components)
    ensures st.groups == [] && st.ungroupedComponentIds == Ids(reg.components)
    ensures |st.ungroupedComponentIds| == |reg.components|
  {
    var cs := reg.components;
    var acc: map<string, ComponentInfo> := map[];
    for i := 0 to |cs|
      invariant acc == RecordOf(cs[..i])
    {
      assert cs[..i + 1][..i] == cs[..i];
      acc := acc[cs[i].id := cs[i]];
    }
    assert cs[..|cs|] == cs;
    st := ComponentState(acc, [], Ids(cs));
  }

  /** The record has exactly the registered ids as keys. */
  lemma {:induction false} RecordKeys(cs: seq<ComponentInfo>)
    ensures forall id :: id in RecordOf(cs) <==> id in Ids(cs)
  {
    if cs != [] {
      var p := cs[..|cs| - 1];
      RecordKeys(p);
      assert Ids(cs) == Ids(p) + [cs[|cs| - 1].id];
    }
  }

  /** Every entry is a registered component carrying its own key as id. */
  lemma {:induction false} RecordEntries(cs: seq<ComponentInfo>)
    ensures forall id | id in RecordOf(cs) :: RecordOf(cs)[id] in cs && RecordOf(cs)[id].id == id
  {
    if cs != [] {
      var p := cs[..|cs| - 1];
      RecordEntries(p);
      forall id | id in RecordOf(cs) ensures RecordOf(cs)[id] in cs && RecordOf(cs)[id].id == id {
        if id != cs[|cs| - 1].id {
          assert RecordOf(cs)[id] == RecordOf(p)[id];
          assert RecordOf(p)[id] in p;
        }
      }
    }
  }

  /** When ids repeat, the last registration with that id is the entry. */
  lemma {:induction false} LaterEntryWins(cs: seq<ComponentInfo>, i: nat)
    requires i < |cs|
    requires forall j | i < j < |cs| :: cs[j].id != cs[i].id
    ensures cs[i].id in RecordOf(cs) && RecordOf(cs)[cs[i].id] == cs[i]
  {
    if i < |cs| - 1 {
      var p := cs[..|cs| - 1];
      LaterEntryWins(p, i);
    }
  }

  /** With distinct ids the record has one entry per registration and its keys are
      the registered ids, each once. */
  lemma {:induction false} UniqueIdsRecord(cs: seq<ComponentInfo>)
    requires UniqueIds(cs)
    ensures |RecordOf(cs)| == |cs|
    ensures multiset(Ids(cs)) == multiset(RecordOf(cs).Keys)
  {
    if cs != [] {
      var p, last := cs[..|cs| - 1], cs[|cs| - 1];
      assert UniqueIds(p);
      UniqueIdsRecord(p);
      RecordKeys(p);
      assert Ids(cs) == Ids(p) + [last.id];
      assert forall k | 0 <= k < |p| :: Ids(p)[k] == p[k].id;
      assert last.id !in Ids(p);
      var before := RecordOf(p).Keys;
      assert RecordOf(cs).Keys == before + {last.id};
      forall y ensures multiset(RecordOf(cs).Keys)[y] == (multiset(before) + multiset{last.id})[y] {
        if y == last.id {
          assert y !in before;
        }
      }
    }
  }

  /** The seed of a registration with distinct ids places every key of the record
      exactly once, so it is a state the organizer's operations keep valid. */
  lemma UniqueIdsPartition(cs: seq<ComponentInfo>)
    requires UniqueIds(cs)
    ensures Organizer.Invariant(InitialState(cs))
  {
    UniqueIdsRecord(cs);
    var s := InitialState(cs);
    assert Organizer.AllIds(s) == Ids(cs);
  }

  /** The registration of the to-do demo components. */
  const TodoComponents := [
    ComponentInfo("todolist", "TodoList", "/components/todolist",
      "A component for managing and displaying a list of todo items"),
    ComponentInfo("addtodoform", "AddTodoForm", "/components/addtodoform",
      "A form component for adding new todo items"),
    ComponentInfo("todoitem", "TodoItem", "/components/todoitem",
      "A component for displaying and managing individual todo items"),
    ComponentInfo("todosummary", "TodoSummary", "/components/todosummary",
      "A component that shows todo completion statistics")
  ]

  /** The to-do registration seeds a valid organizer state with its four ids ungrouped. */
  lemma TodoSeed()
    ensures InitialState(TodoComponents).ungroupedComponentIds == ["todolist", "addtodoform", "todoitem", "todosummary"]
    ensures |InitialState(TodoComponents).components| == 4
    ensures Organizer.Invariant(InitialState(TodoComponents))
  {
    var cs := TodoComponents;
    assert Ids(cs) == ["todolist", "addtodoform", "todoitem", "todosummary"] by {
      assert |Ids(cs)| == 4;
    }
    assert UniqueIds(cs) by {
      assert Ids(cs)[0] != Ids(cs)[1] && Ids(cs)[2] != Ids(cs)[3];
    }
    UniqueIdsRecord(cs);
    UniqueIdsPartition(cs);
  }
}
