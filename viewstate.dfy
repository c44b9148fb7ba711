/** The organizer page's view state around the organizer itself: the collapse flags
    restored from local storage, the structural check a saved organizer state must
    pass to be used, and the collapse toggles. Storage reads and `JSON.parse` are
    inputs: the stored text (`None` when the key is absent) and the parsed value
    (`None` when parsing throws). */
module ViewState {
  import opened Wrappers

  /** The storage keys of the default configuration. */
  const StorageKey := "componentGroups"
  const CollapsedGroupsKey := "componentGroupsCollapsedGroups"
  const UngroupedCollapsedKey := "componentGroupsIsUngroupedCollapsed"

  /** JavaScript truthiness of a stored string: present and non-empty. */
  predicate Truthy(saved: Option<string>)
  {
    saved.Some? && saved.value != ""
  }

  /** The lazy initial value of the ungrouped-collapsed flag. */
  function RestoreUngroupedCollapsed(saved: Option<string>): (collapsed: bool)
    ensures collapsed <==> saved == Some("true")
  {
    if Truthy(saved) then saved.value == "true" else false
  }

  /** `flag.toString()`, the text the save effect stores; reading it back restores
      the flag. */
  function BoolToString(b: bool): (text: string)
    ensures RestoreUngroupedCollapsed(Some(text)) == b
    ensures text != ""
  {
    if b then "true" else "false"
  }

  /** A value `JSON.parse` can produce, kept to what the checks below look at: an
      object is known by the set of its own keys. */
  datatype Json = JNull | JBool(b: bool) | JNumber(n: real) | JString(str: string)
                | JArray(elems: seq<Json>) | JObject(keys: set<string>)

  /** The string elements of a parsed array. */
  function StringElements(elems: seq<Json>): set<string>
  {
    set e | e in elems && e.JString? :: e.str
  }

  /** The lazy initial value of the collapsed-group set: the elements of the stored
      array, or the empty set when nothing is stored, the text does not parse, or it
      is not an array. */
  function RestoreCollapsedGroups(saved: Option<string>, parsed: Option<Json>): (groups: set<string>)
    ensures !Truthy(saved) || parsed.None? ==> groups == {}
    ensures Truthy(saved) && parsed.Some? && !parsed.value.JArray? ==> groups == {}
    ensures Truthy(saved) && parsed.Some? && parsed.value.JArray? ==>
      forall id :: id in groups <==> JString(id) in parsed.value.elems
  {
    if Truthy(saved) then
      match parsed
      case Some(JArray(elems)) => StringElements(elems)
      case _ => {}
    else {}
  }

  /** The set the save effect writes, `Array.from(set)` in any order, is restored as
      the same set. */
  lemma RestoreAfterPersist(order: seq<string>, saved: string)
    requires saved != ""
    ensures RestoreCollapsedGroups(Some(saved), Some(JArray(seq(|order|, i requires 0 <= i < |order| => JString(order[i])))))
         == set id | id in order
  {
    var elems := seq(|order|, i requires 0 <= i < |order| => JString(order[i]));
    forall id ensures id in StringElements(elems) <==> id in order {
      if id in order {
        var i :| 0 <= i < |order| && order[i] == id;
        assert elems[i] == JString(id);
      }
    }
  }

  /** Why the load effect falls back to the registration's seed. */
  datatype Reason = StorageUnavailable | NoSavedState | ParseFailed | InvalidStructure

  /** What the load effect stores: the parsed saved state, or the seed. */
  datatype LoadDecision = UseSaved(value: Json) | UseDefault(reason: Reason)

  /** JavaScript truthiness of a parsed value. */
  predicate JsonTruthy(v: Json)
  {
    match v
    case JNull => false
    case JBool(b) => b
    case JNumber(n) => n != 0.0
    case JString(str) => str != ""
    case _ => true
  }

  /** `typeof v === 'object'`. */
  predicate IsObjectType(v: Json)
  {
    v.JNull? || v.JArray? || v.JObject?
  }

  /** `key in v` for a value that is an object: the own keys of an object, the
      indices of an array and its `length`. */
  predicate HasKey(v: Json, key: string)
    requires IsObjectType(v)
  {
    match v
    case JObject(keys) => key in keys
    case JArray(elems) => key == "length" || exists i | 0 <= i < |elems| :: key == IndexName(i)
    case JNull => false
  }

  /** The decimal name of an array index. */
  function IndexName(i: nat): string
    decreases i
  {
    if i < 10 then [DigitChar(i)] else IndexName(i / 10) + [DigitChar(i % 10)]
  }

  function DigitChar(d: nat): char
    requires d < 10
  {
    "0123456789"[d]
  }

  lemma IndexNameIsDigits(i: nat)
    ensures forall k | 0 <= k < |IndexName(i)| :: '0' <= IndexName(i)[k] <= '9'
  {
  }

  /** The structural check of the load effect, in the order it is made. */
  function DecideLoad(storageAvailable: bool, saved: Option<string>, parsed: Option<Json>): (d: LoadDecision)
    ensures d.UseSaved? <==> (&& storageAvailable && Truthy(saved) && parsed.Some?
                              && parsed.value.JObject?
                              && {"components", "groups", "ungroupedComponentIds"} <= parsed.value.keys)
    ensures d.UseSaved? ==> parsed == Some(d.value)
    ensures d == UseDefault(StorageUnavailable) <==> !storageAvailable
    ensures d == UseDefault(NoSavedState) <==> storageAvailable && !Truthy(saved)
    ensures d == UseDefault(ParseFailed) <==> storageAvailable && Truthy(saved) && parsed.None?
  {
    if !storageAvailable then UseDefault(StorageUnavailable)
    else if !Truthy(saved) then UseDefault(NoSavedState)
    else match parsed
      case None => UseDefault(ParseFailed)
      case Some(v) =>
        if && JsonTruthy(v) && IsObjectType(v)
           && HasKey(v, "components") && HasKey(v, "groups") && HasKey(v, "ungroupedComponentIds")
        then
          assert !v.JArray? by { if v.JArray? { ArrayLacksStateKeys(v.elems); } }
          UseSaved(v)
        else UseDefault(InvalidStructure)
  }

  /** No array has the organizer state's keys: their names are neither `length` nor
      made of digits. */
  lemma ArrayLacksStateKeys(elems: seq<Json>)
    ensures !HasKey(JArray(elems), "components")
  {
    forall i: nat ensures IndexName(i) != "components" {
      IndexNameIsDigits(i);
      if IndexName(i) == "components" {
        assert IndexName(i)[0] == 'c';
      }
    }
  }

  /** A saved object that lacks the `groups` key, the most common corrupted blob, is
      rejected and the seed is used. */
  lemma MissingGroupsRejected(keys: set<string>)
    requires "groups" !in keys
    ensures DecideLoad(true, Some("{}"), Some(JObject(keys))) == UseDefault(InvalidStructure)
  {
  }

  /** The collapse toggle: a copy of the set with `id` removed when it was there and
      added when it was not. */
  function Toggled(groups: set<string>, id: string): (r: set<string>)
    ensures id in r <==> id !in groups
    ensures forall x | x != id :: x in r <==> x in groups
  {
    if id in groups then groups - {id} else groups + {id}
  }

  /** Toggling the same group twice restores the set. */
  lemma ToggledTwice(groups: set<string>, id: string)
    ensures Toggled(Toggled(groups, id), id) == groups
  {
  }
}
