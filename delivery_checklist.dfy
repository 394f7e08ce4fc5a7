/**
 * The checklist state of components/DeliveryChecklist.tsx: a record from item ids to the values
 * stored for them (booleans as the component writes them, anything once read back from storage),
 * the toggle of one item, the per-section count of ticked items, and the state the component
 * starts from.
 */
module DeliveryChecklist {
  import opened Json
  import opened Wrappers

  /** `CheckedState`: the own properties of the record. */
  type CheckedState = map<string, Value>

  /** One checklist item; only its id matters here. */
  datatype Item = Item(id: string, text: string)

  /** One section of `DELIVERY_CHECKLIST`, which is a parameter of this model. */
  datatype Section = Section(title: string, items: seq<Item>)

  /** `checkedItems[id]`: undefined for an id the record does not have. */
  function At(m: CheckedState, id: string): (r: Value) {
    if id in m then m[id] else Undefined
  }

  /** `!!checkedItems[item.id]`: the checkbox is ticked exactly when the stored value is truthy. */
  predicate Checked(m: CheckedState, id: string) {
    Truthy(At(m, id))
  }

  /** handleToggle: `{ ...prev, [itemId]: !prev[itemId] }`. */
  function Toggle(m: CheckedState, id: string): (r: CheckedState)
    ensures r.Keys == m.Keys + {id}
    ensures r[id] == Bool(!Checked(m, id))
    ensures forall k :: k in m && k != id ==> r[k] == m[k]
  {
    m[id := Bool(!Checked(m, id))]
  }

  /** A toggle ticks an unticked item (an absent one included) and unticks a ticked one. */
  lemma ToggleFlips(m: CheckedState, id: string)
    ensures Checked(Toggle(m, id), id) <==> !Checked(m, id)
    ensures id !in m ==> Toggle(m, id)[id] == Bool(true)
  {
  }

  /** A toggle changes no other item, ticked or not. */
  lemma ToggleOthers(m: CheckedState, id: string, k: string)
    requires k != id
    ensures At(Toggle(m, id), k) == At(m, k)
    ensures Checked(Toggle(m, id), k) <==> Checked(m, k)
  {
  }

  /**
   * Toggling twice restores every item's tick; the item toggled is then stored as the boolean
   * of its old tick (false when it was absent or falsy, true when it was truthy).
   */
  lemma ToggleTwice(m: CheckedState, id: string)
    ensures Toggle(Toggle(m, id), id) == m[id := Bool(Checked(m, id))]
    ensures forall k :: Checked(Toggle(Toggle(m, id), id), k) <==> Checked(m, k)
  {
    var r := Toggle(Toggle(m, id), id);
    forall k
      ensures Checked(r, k) <==> Checked(m, k)
    {
      if k != id {
        ToggleOthers(Toggle(m, id), id, k);
        ToggleOthers(m, id, k);
      }
    }
  }

  /** `items.filter(item => checkedItems[item.id]).length`. */
  function CompletedCount(items: seq<Item>, m: CheckedState): (r: nat)
    ensures r <= |items|
  {
    if items == [] then 0
    else CompletedCount(items[..|items| - 1], m) + (if Checked(m, items[|items| - 1].id) then 1 else 0)
  }

  /** The positions of the ticked items. */
  function TickedPositions(items: seq<Item>, m: CheckedState): (r: set<nat>) {
    set i: nat | i < |items| && Checked(m, items[i].id)
  }

  /** The count is the number of positions whose item is ticked. */
  lemma {:induction false} CountIsTicked(items: seq<Item>, m: CheckedState)
    ensures CompletedCount(items, m) == |TickedPositions(items, m)|
  {
    if items != [] {
      var n := |items| - 1;
      var front := items[..n];
      CountIsTicked(front, m);
      var p, p' := TickedPositions(items, m), TickedPositions(front, m);
      forall i: nat
        ensures i in p' <==> i in p && i != n
      {
        if i < n {
          assert front[i] == items[i];
        }
      }
      if Checked(m, items[n].id) {
        assert p == p' + {n};
        assert n !in p';
      } else {
        assert p == p';
      }
    }
  }

  /** The "completed / total" pair drawn above each section, in the checklist's order. */
  function Progress(sections: seq<Section>, m: CheckedState): (r: seq<(nat, nat)>)
    ensures |r| == |sections|
    ensures forall j :: 0 <= j < |sections| ==>
      r[j] == (CompletedCount(sections[j].items, m), |sections[j].items|) && r[j].0 <= r[j].1
  {
    seq(|sections|, j requires 0 <= j < |sections| => (CompletedCount(sections[j].items, m), |sections[j].items|))
  }

  /** All items are ticked exactly when the count reaches the total, none exactly when it is 0. */
  lemma {:induction false} CountBounds(items: seq<Item>, m: CheckedState)
    ensures CompletedCount(items, m) == |items| <==> forall i :: 0 <= i < |items| ==> Checked(m, items[i].id)
    ensures CompletedCount(items, m) == 0 <==> forall i :: 0 <= i < |items| ==> !Checked(m, items[i].id)
  {
    if items != [] {
      var n := |items| - 1;
      CountBounds(items[..n], m);
      assert forall i :: 0 <= i < n ==> items[..n][i] == items[i];
    }
  }

  /** The number of items of the list with the given id. */
  function Occurrences(items: seq<Item>, id: string): (r: nat) {
    if items == [] then 0
    else Occurrences(items[..|items| - 1], id) + (if items[|items| - 1].id == id then 1 else 0)
  }

  /**
   * A toggle moves the count by the number of items that carry the toggled id: up when the id
   * was unticked, down when it was ticked. For a section whose ids are distinct that is one
   * step up or down when the section holds the item, and no change when it does not.
   */
  lemma {:induction false} ToggleCount(items: seq<Item>, m: CheckedState, id: string)
    ensures Checked(m, id) ==> CompletedCount(items, Toggle(m, id)) + Occurrences(items, id) == CompletedCount(items, m)
    ensures !Checked(m, id) ==> CompletedCount(items, Toggle(m, id)) == CompletedCount(items, m) + Occurrences(items, id)
  {
    if items != [] {
      var n := |items| - 1;
      ToggleCount(items[..n], m, id);
      if items[n].id != id {
        ToggleOthers(m, id, items[n].id);
      }
    }
  }

  /**
   * The initial state: the parsed stored text when storage is available and holds a non-empty
   * text that parses; the empty record otherwise. Reading storage and `JSON.parse` are
   * parameters: `stored` is what `getItem` returned (None for null) and `parse` returns None
   * when parsing throws.
   */
  function InitialState(storageAvailable: bool, stored: Option<string>, parse: string -> Option<CheckedState>): (r: CheckedState) {
    if !storageAvailable then map[]
    else match stored
      case None => map[]
      case Some(text) =>
        if text == "" then map[]
        else match parse(text)
          case None => map[]
          case Some(state) => state
  }

  /** The cases in which the component falls back to the empty record. */
  predicate FallsBack(storageAvailable: bool, stored: Option<string>, parse: string -> Option<CheckedState>) {
    !storageAvailable || stored.None? || stored == Some("") || parse(stored.value).None?
  }

  /**
   * Nothing stored, an empty stored text, a text that does not parse or no storage at all give
   * the empty record, in which no item is ticked; otherwise the state is what was stored.
   */
  lemma InitialFallback(storageAvailable: bool, stored: Option<string>, parse: string -> Option<CheckedState>)
    ensures FallsBack(storageAvailable, stored, parse) ==>
      InitialState(storageAvailable, stored, parse) == map[] &&
      forall id :: !Checked(InitialState(storageAvailable, stored, parse), id)
    ensures !FallsBack(storageAvailable, stored, parse) ==>
      InitialState(storageAvailable, stored, parse) == parse(stored.value).value
  {
  }
}
