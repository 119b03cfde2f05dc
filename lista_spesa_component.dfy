/**
 * The `ListaSpesa` component as a state holder. It owns the React state
 * (`items`, `selectedMember`, `loading`) and sits beside the remote
 * `shopping_items` table, kept here as the field `store`.
 *
 * The local slots change only on a reload and on push events. User actions
 * write to `store` alone: there is no optimistic local update, and the view
 * catches up when the backend pushes the change back (`ApplyKeepsMirror`).
 * Each backend call's outcome is the parameter `ok`: a failed call is logged
 * by the source and abandoned, so nothing changes.
 */
module ListaSpesaComponent {
  import opened Wrappers
  import opened JsText
  import opened ListaSpesa

  /** The answer of `select('*').order('id')`: an error, or the rows (`data`). */
  datatype Fetch = Failed | Fetched(rows: seq<Item>)

  class ShoppingList {
    var items: seq<Item>
    var selectedMember: string
    var loading: bool
    var store: Table

    ghost predicate Valid()
      reads this
    {
      WellFormed(items)
    }

    /** The initial `useState` values; `now` is the creation-time clock reading. */
    constructor (now: string, remote: Table)
      ensures Valid() && items == InitialItems(now)
      ensures selectedMember == FamilyMembers[0] && loading && store == remote
    {
      items := InitialItems(now);
      selectedMember := FamilyMembers[0];
      loading := true;
      store := remote;
    }

    /** `setSelectedMember` from the member picker. */
    method SelectMember(member: string)
      modifies this`selectedMember
      ensures selectedMember == member
    {
      selectedMember := member;
    }

    /**
     * `loadShoppingItems`: on an error the slots stay as they are; otherwise
     * they are rebuilt from the rows. Either way loading ends. When the rows
     * are a listing of the table, the slots become its left join.
     */
    method LoadShoppingItems(response: Fetch, now: string)
      requires Valid()
      modifies this`items, this`loading
      ensures Valid() && !loading
      ensures response.Failed? ==> items == old(items)
      ensures response.Fetched? ==> items == Load(response.rows, now)
      ensures response.Fetched? && Lists(response.rows, store) ==>
        items == TableView(store, now) && Mirrors(items, store)
    {
      if response.Fetched? {
        items := Load(response.rows, now);
        if Lists(response.rows, store) {
          LoadIsLeftJoin(response.rows, store, now);
          LoadMirrors(response.rows, store, now);
        }
      }
      loading := false;
    }

    /**
     * The realtime handler: copy the slots and overwrite the one the event
     * names, with the new row or with the canonical empty payload.
     */
    method OnChange(ev: Change, now: string)
      requires Valid()
      modifies this`items
      ensures Valid()
      ensures items == Apply(old(items), ev, now)
      ensures |items| == |old(items)|
      ensures forall k :: 0 <= k < |items| && k != Target(ev) ==> items[k] == old(items)[k]
    {
      var id := Target(ev);
      if 0 <= id < |items| {
        var newItems := items;
        match ev {
          case Insert(rec) => newItems := newItems[id := rec];
          case Update(rec) => newItems := newItems[id := rec];
          case Delete(_) => newItems := newItems[id := EmptySlot(id, now)];
        }
        items := newItems;
      }
    }

    /**
     * `updateItem(id, text)`: a non-blank text is trimmed and upserted under the
     * selected member with `completed` reset; a blank one is `clearItem(id)`.
     */
    method UpdateItem(id: int, text: string, now: string, ok: bool)
      modifies this`store
      ensures store == if ok then UpdateItemEffect(items, old(store), id, text, selectedMember, now)
                       else old(store)
    {
      if Trim(text) != "" {
        if ok {
          store := Upsert(store, id, Trim(text), selectedMember, false, now);
        }
      } else {
        ClearItem(id, ok);
      }
    }

    /** `clearItem(id)`: nothing when the local slot is empty, else delete row `id`. */
    method ClearItem(id: int, ok: bool)
      modifies this`store
      ensures store == if ok then ClearItemEffect(items, old(store), id) else old(store)
    {
      if !(0 <= id < |items|) || items[id].text == "" {
        return;
      }
      if ok {
        store := DeleteWhereId(store, id);
      }
    }

    /** `toggleComplete(id)`: nothing when the local slot is empty, else store the negated local flag. */
    method ToggleComplete(id: int, ok: bool)
      modifies this`store
      ensures store == if ok then ToggleCompleteEffect(items, old(store), id) else old(store)
    {
      if !(0 <= id < |items|) || items[id].text == "" {
        return;
      }
      if ok {
        store := UpdateCompleted(store, id, !items[id].completed);
      }
    }

    /** `clearAll()`: unless the user declines the confirmation, delete every row with id other than -1. */
    method ClearAll(confirmed: bool, ok: bool)
      modifies this`store
      ensures store == if confirmed && ok then ClearAllEffect(old(store)) else old(store)
      ensures confirmed && ok && SlotKeyed(old(store)) ==> store == map[]
    {
      if !confirmed {
        return;
      }
      if ok {
        store := DeleteWhereIdNot(store, -1);
      }
    }

    /** A quick-suggestion button: `updateItem` on the first slot with empty text, if there is one. */
    method Suggest(caption: string, now: string, ok: bool)
      requires Valid()
      modifies this`store
      ensures store == if ok then SuggestEffect(items, old(store), caption, selectedMember, now)
                       else old(store)
    {
      var emptySlot := FirstEmpty(items);
      if emptySlot.Some? {
        UpdateItem(items[emptySlot.value].id, caption, now, ok);
      }
    }
  }
}
