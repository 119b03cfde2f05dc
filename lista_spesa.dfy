/**
 * The shopping list ("Lista Spesa"): a fixed view of twenty slots kept in step
 * with the sparse `shopping_items` table of the backend.
 *
 * This module holds the values and the pure rules: the initial slots, the
 * reload that left-joins the fetched rows onto the slots, the reducer for push
 * events, the backend's table primitives, what each user action does to the
 * table, the counters, the quick-suggestion target and the elapsed-time label.
 * The component that owns the state is `ListaSpesaComponent`.
 */
module ListaSpesa {
  import opened Wrappers
  import opened JsText

  /** Number of slots of the list. */
  const Slots: nat := 20

  const FamilyMembers: seq<string> := ["Matteo", "Bea", "Giuseppe", "Michela"]

  /** The labels of the quick-suggestion buttons. */
  const Suggestions: seq<string> :=
    ["Pane", "Latte", "Uova", "Pasta", "Pomodori", "Formaggio", "Carne", "Frutta"]

  /**
   * A `ShoppingItem`: one slot of the local view, or one fetched or pushed row
   * together with its key. `createdAt` is an opaque ISO timestamp.
   */
  datatype Item = Item(id: int, text: string, addedBy: string, createdAt: string, completed: bool)

  /** A row of the `shopping_items` table, without its key. */
  datatype Row = Row(text: string, addedBy: string, createdAt: string, completed: bool)

  /** The remote table: only occupied slots have a row, keyed by slot id. */
  type Table = map<int, Row>

  function RowOf(it: Item): Row {
    Row(it.text, it.addedBy, it.createdAt, it.completed)
  }

  /** The canonical empty payload of slot `i`; `now` is `new Date().toISOString()`. */
  function EmptySlot(i: int, now: string): Item {
    Item(i, "", "", now, false)
  }

  predicate IsEmptySlot(it: Item) {
    it.text == "" && it.addedBy == "" && !it.completed
  }

  /** Exactly `Slots` slots, slot `i` carrying id `i`. */
  predicate WellFormed(items: seq<Item>) {
    |items| == Slots && forall i :: 0 <= i < |items| ==> items[i].id == i
  }

  /** Only slot ids are keys of the table. */
  predicate SlotKeyed(t: Table) {
    forall k :: k in t ==> 0 <= k < Slots
  }

  /** JavaScript's `s || fallback` on a string: the empty string is falsy. */
  function OrElse(s: string, fallback: string): string {
    if s != "" then s else fallback
  }

  // ---------------------------------------------------------------- initial state

  /** The state before the first load: twenty canonical empty slots. */
  function InitialItems(now: string): (r: seq<Item>)
    ensures WellFormed(r)
    ensures forall i :: 0 <= i < |r| ==> IsEmptySlot(r[i]) && r[i].createdAt == now
  {
    seq(Slots, i requires 0 <= i < Slots => EmptySlot(i, now))
  }

  // ---------------------------------------------------------------- reload

  /** `rows.findIndex(row => row.id === i)`, `None` for -1. */
  function FirstWithId(rows: seq<Item>, i: int): (r: Option<nat>)
    ensures r.Some? ==> (r.value < |rows| && rows[r.value].id == i &&
      forall k :: 0 <= k < r.value ==> rows[k].id != i)
    ensures r.None? ==> forall k :: 0 <= k < |rows| ==> rows[k].id != i
  {
    if rows == [] then None
    else if rows[0].id == i then Some(0)
    else match FirstWithId(rows[1..], i)
      case None => None
      case Some(k) => Some(k + 1)
  }

  /** `rows.find(row => row.id === i)` */
  function Find(rows: seq<Item>, i: int): Option<Item> {
    match FirstWithId(rows, i)
    case None => None
    case Some(k) => Some(rows[k])
  }

  /**
   * Slot `i` of a reload: each field from the row found for `i` when it is
   * truthy, from the default otherwise. A missing row reads as `undefined`,
   * which `||` treats like the empty string and `false`.
   */
  function JoinSlot(rows: seq<Item>, i: int, now: string): Item {
    var found := Find(rows, i);
    var text := if found.Some? then found.value.text else "";
    var addedBy := if found.Some? then found.value.addedBy else "";
    var createdAt := if found.Some? then found.value.createdAt else "";
    var completed := found.Some? && found.value.completed;
    Item(i, OrElse(text, ""), OrElse(addedBy, ""), OrElse(createdAt, now), completed || false)
  }

  /**
   * `loadShoppingItems` on a successful fetch: twenty slots, slot `i` taken
   * from the first fetched row with id `i`, or empty when there is none. Rows
   * with other ids are never looked at.
   */
  function Load(rows: seq<Item>, now: string): (r: seq<Item>)
    ensures WellFormed(r)
    ensures forall k :: (0 <= k < |rows| && 0 <= rows[k].id < Slots &&
      forall j :: 0 <= j < k ==> rows[j].id != rows[k].id) ==>
        r[rows[k].id].text == rows[k].text && r[rows[k].id].addedBy == rows[k].addedBy &&
        r[rows[k].id].completed == rows[k].completed &&
        r[rows[k].id].createdAt == OrElse(rows[k].createdAt, now)
    ensures forall i :: 0 <= i < Slots && (forall k :: 0 <= k < |rows| ==> rows[k].id != i) ==>
      r[i] == EmptySlot(i, now)
  {
    seq(Slots, i requires 0 <= i < Slots => JoinSlot(rows, i, now))
  }

  /**
   * `rows` is what `select('*').order('id')` returns for table `t`: each row
   * once, in ascending id order.
   */
  ghost predicate Lists(rows: seq<Item>, t: Table) {
    (forall k :: 0 <= k < |rows| ==> rows[k].id in t && t[rows[k].id] == RowOf(rows[k])) &&
    (forall k, l :: 0 <= k < l < |rows| ==> rows[k].id < rows[l].id) &&
    (forall id :: id in t ==> exists k :: 0 <= k < |rows| && rows[k].id == id)
  }

  /** Slot `i` of the left join of table `t` onto the slots. */
  function JoinedSlot(t: Table, i: int, now: string): Item {
    if i in t then Item(i, t[i].text, t[i].addedBy, OrElse(t[i].createdAt, now), t[i].completed)
    else EmptySlot(i, now)
  }

  /** The left join of the sparse table onto positions 0..Slots-1. */
  function TableView(t: Table, now: string): seq<Item> {
    seq(Slots, i requires 0 <= i < Slots => JoinedSlot(t, i, now))
  }

  /** Reloading from a listing of the table yields exactly the left join of the table. */
  lemma LoadIsLeftJoin(rows: seq<Item>, t: Table, now: string)
    requires Lists(rows, t)
    ensures Load(rows, now) == TableView(t, now)
  {
    var r, v := Load(rows, now), TableView(t, now);
    forall i | 0 <= i < Slots ensures r[i] == v[i] {
      if i in t {
        var k :| 0 <= k < |rows| && rows[k].id == i;
        assert forall j :: 0 <= j < k ==> rows[j].id != rows[k].id;
      }
    }
  }

  /** Skipping one row whose id is not `i` does not change what `find` returns for `i`. */
  lemma {:induction false} FindSkipsOtherId(a: seq<Item>, x: Item, b: seq<Item>, i: int)
    requires x.id != i
    ensures Find(a + [x] + b, i) == Find(a + b, i)
  {
    if a == [] {
      assert a + [x] + b == [x] + b && ([x] + b)[1..] == b && a + b == b;
    } else {
      assert (a + [x] + b)[1..] == a[1..] + [x] + b;
      assert (a + b)[1..] == a[1..] + b;
      FindSkipsOtherId(a[1..], x, b, i);
    }
  }

  /** A fetched row whose id is not a slot id has no effect on the reload. */
  lemma LoadIgnoresForeignRow(a: seq<Item>, x: Item, b: seq<Item>, now: string)
    requires x.id < 0 || Slots <= x.id
    ensures Load(a + [x] + b, now) == Load(a + b, now)
  {
    forall i | 0 <= i < Slots ensures Load(a + [x] + b, now)[i] == Load(a + b, now)[i] {
      FindSkipsOtherId(a, x, b, i);
    }
  }

  // ---------------------------------------------------------------- push events

  /** A change notification of the `shopping_items` channel. */
  datatype Change = Insert(record: Item) | Update(record: Item) | Delete(oldId: int)

  /** The slot a change is addressed to. */
  function Target(ev: Change): int {
    if ev.Delete? then ev.oldId else ev.record.id
  }

  /** What the slot becomes: the new row, or the canonical empty payload for a delete. */
  function Replacement(ev: Change, now: string): Item {
    if ev.Delete? then EmptySlot(ev.oldId, now) else ev.record
  }

  /**
   * The realtime handler: copy the slots and overwrite the one the event names.
   * An id that is not a position of the list leaves the slots as they are.
   */
  function Apply(items: seq<Item>, ev: Change, now: string): (r: seq<Item>)
    ensures |r| == |items|
    ensures 0 <= Target(ev) < |items| ==> r[Target(ev)] == Replacement(ev, now)
    ensures forall k :: 0 <= k < |items| && k != Target(ev) ==> r[k] == items[k]
    ensures WellFormed(items) ==> WellFormed(r)
  {
    var id := Target(ev);
    if 0 <= id < |items| then
      match ev
      case Insert(rec) => items[id := rec]
      case Update(rec) => items[id := rec]
      case Delete(_) => items[id := EmptySlot(id, now)]
    else items
  }

  /** Delivering the same event twice has the effect of delivering it once. */
  lemma ApplyIdempotent(items: seq<Item>, ev: Change, now: string)
    ensures Apply(Apply(items, ev, now), ev, now) == Apply(items, ev, now)
  {
  }

  /** The change of the table that an event reports. */
  function ApplyToTable(t: Table, ev: Change): Table {
    match ev
    case Insert(rec) => t[rec.id := RowOf(rec)]
    case Update(rec) => t[rec.id := RowOf(rec)]
    case Delete(id) => t - {id}
  }

  /** What a slot shows, leaving out its timestamp. */
  datatype Payload = Payload(text: string, addedBy: string, completed: bool)

  function PayloadOf(it: Item): Payload {
    Payload(it.text, it.addedBy, it.completed)
  }

  /** What the left join puts in slot `i`, leaving out the timestamp. */
  function RowPayload(t: Table, i: int): Payload {
    if i in t then Payload(t[i].text, t[i].addedBy, t[i].completed) else Payload("", "", false)
  }

  /** The local slots show the left join of table `t`, timestamps aside. */
  ghost predicate Mirrors(items: seq<Item>, t: Table) {
    WellFormed(items) && forall i :: 0 <= i < Slots ==> PayloadOf(items[i]) == RowPayload(t, i)
  }

  /** A reload from a listing of the table mirrors the table. */
  lemma LoadMirrors(rows: seq<Item>, t: Table, now: string)
    requires Lists(rows, t)
    ensures Mirrors(Load(rows, now), t)
  {
    LoadIsLeftJoin(rows, t, now);
  }

  /** Applying the event that reports a table change keeps the slots mirroring the table. */
  lemma ApplyKeepsMirror(items: seq<Item>, t: Table, ev: Change, now: string)
    requires Mirrors(items, t)
    ensures Mirrors(Apply(items, ev, now), ApplyToTable(t, ev))
  {
    var r, u := Apply(items, ev, now), ApplyToTable(t, ev);
    forall i | 0 <= i < Slots ensures PayloadOf(r[i]) == RowPayload(u, i) {
      if i != Target(ev) {
        assert i in u <==> i in t;
        assert i in u ==> u[i] == t[i];
      }
    }
  }

  function ApplyAll(items: seq<Item>, evs: seq<Change>, now: string): seq<Item>
    decreases |evs|
  {
    if evs == [] then items else ApplyAll(Apply(items, evs[0], now), evs[1..], now)
  }

  function ApplyAllToTable(t: Table, evs: seq<Change>): Table
    decreases |evs|
  {
    if evs == [] then t else ApplyAllToTable(ApplyToTable(t, evs[0]), evs[1..])
  }

  /**
   * One reducer, two producers: whatever sequence of changes the table goes
   * through, replaying their events on a mirroring view keeps it mirroring.
   */
  lemma {:induction false} ReplayKeepsMirror(items: seq<Item>, t: Table, evs: seq<Change>, now: string)
    requires Mirrors(items, t)
    ensures Mirrors(ApplyAll(items, evs, now), ApplyAllToTable(t, evs))
    decreases |evs|
  {
    if evs != [] {
      ApplyKeepsMirror(items, t, evs[0], now);
      ReplayKeepsMirror(Apply(items, evs[0], now), ApplyToTable(t, evs[0]), evs[1..], now);
    }
  }

  // ---------------------------------------------------------------- backend primitives

  /**
   * `upsert({id, text, added_by, completed})`: the row for `id` gets the three
   * columns; `created_at` is not written, so an existing row keeps it and a new
   * row takes the column default `now`.
   */
  function Upsert(t: Table, id: int, text: string, addedBy: string, completed: bool, now: string): (r: Table)
    ensures r.Keys == t.Keys + {id}
    ensures r[id].text == text && r[id].addedBy == addedBy && r[id].completed == completed
    ensures r[id].createdAt == if id in t then t[id].createdAt else now
    ensures forall k :: k in t && k != id ==> r[k] == t[k]
  {
    t[id := Row(text, addedBy, if id in t then t[id].createdAt else now, completed)]
  }

  /** `delete().eq('id', id)` */
  function DeleteWhereId(t: Table, id: int): (r: Table)
    ensures r.Keys == t.Keys - {id}
    ensures forall k :: k in r ==> r[k] == t[k]
  {
    t - {id}
  }

  /** `update({ completed }).eq('id', id)`: without a row for `id` nothing is updated. */
  function UpdateCompleted(t: Table, id: int, completed: bool): (r: Table)
    ensures r.Keys == t.Keys
    ensures id in t ==> r[id] == t[id].(completed := completed)
    ensures forall k :: k in t && k != id ==> r[k] == t[k]
  {
    if id in t then t[id := t[id].(completed := completed)] else t
  }

  /** `delete().neq('id', keep)`: removes every row whose id is not `keep`. */
  function DeleteWhereIdNot(t: Table, keep: int): (r: Table)
    ensures r.Keys == t.Keys * {keep}
    ensures forall k :: k in r ==> r[k] == t[k]
  {
    map k | k in t && k == keep :: t[k]
  }

  // ---------------------------------------------------------------- user actions

  /** The guard `if (!item?.text) return`: slot `id` exists and has text. */
  predicate HasText(items: seq<Item>, id: int) {
    0 <= id < |items| && items[id].text != ""
  }

  /** `clearItem(id)` on a successful call: deletes row `id` unless the local slot is empty. */
  function ClearItemEffect(items: seq<Item>, t: Table, id: int): (r: Table)
    ensures !HasText(items, id) ==> r == t
    ensures HasText(items, id) ==> id !in r && r.Keys == t.Keys - {id}
    ensures forall k :: k in r ==> k in t && r[k] == t[k]
  {
    if HasText(items, id) then DeleteWhereId(t, id) else t
  }

  /**
   * `updateItem(id, text)` on a successful call: a blank text falls back to
   * `clearItem(id)`; any other text is trimmed and upserted under the selected
   * member, with `completed` reset.
   */
  function UpdateItemEffect(items: seq<Item>, t: Table, id: int, text: string, member: string, now: string): (r: Table)
    ensures !IsBlank(text) ==> (id in r && r[id].text == Trim(text) && r[id].text != "" &&
      r[id].addedBy == member && !r[id].completed)
    ensures !IsBlank(text) ==> r.Keys == t.Keys + {id}
    ensures IsBlank(text) ==> r == ClearItemEffect(items, t, id)
    ensures forall k :: k in t && k != id ==> k in r && r[k] == t[k]
  {
    if !IsBlank(text) then Upsert(t, id, Trim(text), member, false, now)
    else ClearItemEffect(items, t, id)
  }

  /** `toggleComplete(id)` on a successful call: stores the negation of the LOCAL flag. */
  function ToggleCompleteEffect(items: seq<Item>, t: Table, id: int): (r: Table)
    ensures r.Keys == t.Keys
    ensures !HasText(items, id) ==> r == t
    ensures HasText(items, id) && id in t ==>
      r[id] == t[id].(completed := !items[id].completed)
    ensures forall k :: k in t && k != id ==> r[k] == t[k]
  {
    if HasText(items, id) then UpdateCompleted(t, id, !items[id].completed) else t
  }

  /** `clearAll()` on a confirmed, successful call: `delete().neq('id', -1)`. */
  function ClearAllEffect(t: Table): (r: Table)
    ensures SlotKeyed(t) ==> r == map[]
    ensures r.Keys <= {-1}
  {
    DeleteWhereIdNot(t, -1)
  }

  /** A whitespace-only edit is exactly `clearItem`. */
  lemma WhitespaceUpdateIsClear(items: seq<Item>, t: Table, id: int, text: string, member: string, now: string)
    requires AllWhitespace(text)
    ensures UpdateItemEffect(items, t, id, text, member, now) == ClearItemEffect(items, t, id)
  {
    BlankIffAllWhitespace(text);
  }

  /** Writing a text and reloading shows the trimmed text, the author, and `completed` reset. */
  lemma UpdateThenLoad(items: seq<Item>, t: Table, id: int, text: string, member: string,
                       now: string, rows: seq<Item>, later: string)
    requires 0 <= id < Slots && !IsBlank(text)
    requires Lists(rows, UpdateItemEffect(items, t, id, text, member, now))
    ensures Load(rows, later)[id].text == Trim(text)
    ensures Load(rows, later)[id].addedBy == member
    ensures !Load(rows, later)[id].completed
  {
    LoadIsLeftJoin(rows, UpdateItemEffect(items, t, id, text, member, now), later);
  }

  /** On a view that mirrors the table, toggling flips the stored flag of an occupied slot. */
  lemma ToggleFlipsMirroredRow(items: seq<Item>, t: Table, id: int)
    requires Mirrors(items, t) && HasText(items, id)
    ensures id in t
    ensures ToggleCompleteEffect(items, t, id)[id] == t[id].(completed := !t[id].completed)
  {
    assert PayloadOf(items[id]) == RowPayload(t, id);
  }

  /** On a view that mirrors the table, clearing deletes the row exactly when it holds text. */
  lemma ClearOnMirroredView(items: seq<Item>, t: Table, id: int)
    requires Mirrors(items, t)
    ensures ClearItemEffect(items, t, id) ==
      if 0 <= id < Slots && id in t && t[id].text != "" then t - {id} else t
  {
    if 0 <= id < Slots {
      assert PayloadOf(items[id]) == RowPayload(t, id);
    }
  }

  /**
   * After `clearAll`, a reload shows twenty empty slots, even when a row
   * with id -1 survives the `neq('id', -1)` filter.
   */
  lemma ClearAllThenLoad(t: Table, rows: seq<Item>, now: string)
    requires Lists(rows, ClearAllEffect(t))
    ensures Load(rows, now) == InitialItems(now)
  {
    assert ClearAllEffect(t).Keys <= {-1};
    forall i | 0 <= i < Slots ensures Load(rows, now)[i] == InitialItems(now)[i] {
      assert forall k :: 0 <= k < |rows| ==> rows[k].id != i;
    }
  }

  /*
   * A worked scenario: a list holding only "Pane" by Matteo in slot 0, the
   * view being the reload of the table before each action. Toggling completes
   * it, writing "Latte" as Bea replaces it and resets the flag, clearing it
   * empties the slot again.
   */

  function OneRowTable(text: string, addedBy: string, created: string, completed: bool): Table {
    map[0 := Row(text, addedBy, created, completed)]
  }

  lemma ScenarioToggle(created: string, now: string)
    ensures var t := OneRowTable("Pane", "Matteo", created, false);
      ToggleCompleteEffect(TableView(t, now), t, 0) == OneRowTable("Pane", "Matteo", created, true)
  {
    var t := OneRowTable("Pane", "Matteo", created, false);
    assert TableView(t, now)[0].text == "Pane";
  }

  lemma ScenarioRewrite(created: string, now: string)
    ensures var t := OneRowTable("Pane", "Matteo", created, true);
      UpdateItemEffect(TableView(t, now), t, 0, "Latte", "Bea", now) == OneRowTable("Latte", "Bea", created, false)
  {
    SuggestionIsTrimmed(1);
    assert Suggestions[1] == "Latte";
    var t := OneRowTable("Pane", "Matteo", created, true);
    var r := UpdateItemEffect(TableView(t, now), t, 0, "Latte", "Bea", now);
    assert r.Keys == {0};
  }

  lemma ScenarioClear(created: string, now: string)
    ensures var t := OneRowTable("Latte", "Bea", created, false);
      ClearItemEffect(TableView(t, now), t, 0) == map[] &&
      TableView(map[], now)[0] == EmptySlot(0, now)
  {
    var t := OneRowTable("Latte", "Bea", created, false);
    assert TableView(t, now)[0].text == "Latte";
  }

  // ---------------------------------------------------------------- counters and suggestions

  /** `items.filter(item => item.text.trim())`: the slots whose text is not blank. */
  function ActiveItems(items: seq<Item>): (r: seq<Item>)
    ensures |r| <= |items|
    ensures forall x :: multiset(r)[x] == if IsBlank(x.text) then 0 else multiset(items)[x]
  {
    if items == [] then []
    else
      assert items == [items[0]] + items[1..];
      (if IsBlank(items[0].text) then [] else [items[0]]) + ActiveItems(items[1..])
  }

  /** `activeItems.filter(item => item.completed)` */
  function CompletedItems(items: seq<Item>): (r: seq<Item>)
    ensures |r| <= |items|
    ensures forall x :: multiset(r)[x] == if x.completed then multiset(items)[x] else 0
  {
    if items == [] then []
    else
      assert items == [items[0]] + items[1..];
      (if items[0].completed then [items[0]] else []) + CompletedItems(items[1..])
  }

  /** `completedCount` */
  function CompletedCount(items: seq<Item>): (n: nat)
    ensures n <= |ActiveItems(items)|
  {
    |CompletedItems(ActiveItems(items))|
  }

  /** The header counters: completed ones are among the active ones, which are among the slots. */
  lemma CountersBounded(items: seq<Item>)
    requires WellFormed(items)
    ensures CompletedCount(items) <= |ActiveItems(items)| <= Slots
  {
  }

  /** `items.find(item => !item.text)`, as a position. */
  function FirstEmpty(items: seq<Item>): (r: Option<nat>)
    ensures r.Some? ==> (r.value < |items| && items[r.value].text == "" &&
      forall k :: 0 <= k < r.value ==> items[k].text != "")
    ensures r.None? ==> forall k :: 0 <= k < |items| ==> items[k].text != ""
  {
    if items == [] then None
    else if items[0].text == "" then Some(0)
    else match FirstEmpty(items[1..])
      case None => None
      case Some(k) => Some(k + 1)
  }

  /** A quick-suggestion click on a successful call: `updateItem` on the first empty slot, if any. */
  function SuggestEffect(items: seq<Item>, t: Table, suggestion: string, member: string, now: string): (r: Table)
    ensures FirstEmpty(items).None? ==> r == t
    ensures FirstEmpty(items).Some? ==>
      var id := items[FirstEmpty(items).value].id;
      r - {id} == t - {id}
  {
    match FirstEmpty(items)
    case None => t
    case Some(k) => UpdateItemEffect(items, t, items[k].id, suggestion, member, now)
  }

  /**
   * A suggestion lands in the first slot with empty text, as a fresh
   * uncompleted item by the member, and does nothing when every slot has
   * text. It holds for any trimmed, non-blank label, which every suggestion
   * is (`SuggestionIsTrimmed`).
   */
  lemma SuggestionFillsFirstEmpty(items: seq<Item>, t: Table, caption: string, member: string, now: string)
    requires WellFormed(items) && Trim(caption) == caption && caption != ""
    ensures FirstEmpty(items).None? ==> SuggestEffect(items, t, caption, member, now) == t
    ensures FirstEmpty(items).Some? ==>
      SuggestEffect(items, t, caption, member, now) ==
        Upsert(t, FirstEmpty(items).value, caption, member, false, now)
  {
    var r := SuggestEffect(items, t, caption, member, now);
    match FirstEmpty(items)
    case None =>
      assert r == t;
    case Some(k) =>
      assert items[k].id == k;
      assert r == UpdateItemEffect(items, t, k, caption, member, now);
      assert !IsBlank(caption);
      assert r == Upsert(t, k, caption, member, false, now);
  }

  /** Every suggestion label is already trimmed, and none is blank. */
  lemma SuggestionIsTrimmed(i: nat)
    requires i < |Suggestions|
    ensures Trim(Suggestions[i]) == Suggestions[i] && Suggestions[i] != ""
  {
    var s := Suggestions[i];
    assert 'A' <= s[0] <= 'Z' && 'a' <= s[|s| - 1] <= 'z';
    TrimOfTrimmed(s);
  }

  // ---------------------------------------------------------------- elapsed time

  const MsPerMinute: nat := 1000 * 60
  const MsPerHour: nat := 1000 * 60 * 60

  /**
   * `formatTime` with both instants as integer milliseconds. `Math.floor` of a
   * division by a positive constant is Dafny's `/`. `localeDate` stands for
   * `toLocaleDateString('it-IT')`.
   */
  function FormatTime(created: int, now: int, localeDate: string): (r: string)
    ensures r == "ora" || r == localeDate ||
      (|r| > 4 && AllDigits(r[..|r| - 4]) && (r[|r| - 4..] == "m fa" || r[|r| - 4..] == "h fa"))
  {
    var diff := now - created;
    var minutes := diff / MsPerMinute;
    var hours := diff / MsPerHour;
    if minutes < 1 then "ora"
    else if minutes < 60 then Decimal(minutes) + "m fa"
    else if hours < 24 then Decimal(hours) + "h fa"
    else localeDate
  }

  /** Under a minute (or a creation time in the future) reads "ora". */
  lemma FormatTimeJustNow(created: int, now: int, localeDate: string)
    requires now - created < MsPerMinute
    ensures FormatTime(created, now, localeDate) == "ora"
  {
  }

  /** `m` whole minutes, for `m` between 1 and 59, read "<m>m fa". */
  lemma FormatTimeMinutes(created: int, now: int, localeDate: string, m: nat)
    requires 1 <= m < 60 && m * MsPerMinute <= now - created < (m + 1) * MsPerMinute
    ensures FormatTime(created, now, localeDate) == Decimal(m) + "m fa"
  {
    assert (now - created) / MsPerMinute == m;
  }

  /** `h` whole hours, for `h` between 1 and 23, read "<h>h fa". */
  lemma FormatTimeHours(created: int, now: int, localeDate: string, h: nat)
    requires 1 <= h < 24 && h * MsPerHour <= now - created < (h + 1) * MsPerHour
    ensures FormatTime(created, now, localeDate) == Decimal(h) + "h fa"
  {
    assert (now - created) / MsPerHour == h;
    assert (now - created) / MsPerMinute >= 60;
  }

  /** A day or more falls through to the date string. */
  lemma FormatTimeDate(created: int, now: int, localeDate: string)
    requires now - created >= 24 * MsPerHour
    ensures FormatTime(created, now, localeDate) == localeDate
  {
    assert (now - created) / MsPerHour >= 24;
    assert (now - created) / MsPerMinute >= 60;
  }
}
