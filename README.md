# Famiglia Greco app: shopping list and note board, in Dafny

This project models the two pieces of logic in the family app's React components.

**Lista Spesa** (`src/components/ListaSpesa.tsx`) is a shopping list of exactly twenty slots. Slot `i` always carries id `i`. Each slot is kept in step with the backend table `shopping_items`. That table is sparse: only occupied slots have a row, keyed by slot id.
- The local slots change in exactly two ways. A reload left-joins the fetched rows onto positions 0..19. A push event overwrites one slot, either with the new row or, for a delete, with the canonical empty payload.
- User actions only write to the table; none of them touches the local slots:
  - `updateItem` upserts the trimmed text and resets `completed`. A blank text falls back to `clearItem`.
  - `clearItem` deletes the row.
  - `toggleComplete` stores the negation of the local flag.
  - `clearAll` deletes every row whose id is not -1.
  - `clearItem` and `toggleComplete` do nothing when the local slot is empty.
- A quick suggestion writes to the first slot with empty text.
- The header counts the active and the completed items.
- `formatTime` turns an elapsed time into a minute or hour label.

**Bacheca** (`src/components/BachecaFamiglia.tsx`) is a board of post-it notes.
- `addPostIt` appends one note, unless the draft is blank once trimmed.
- `deletePostIt` filters the notes by id.
- The notification body is cut to 50 characters plus `...`.
- `formatTime` labels elapsed time by hours.

Layout:
- `wrappers.dfy`: module `Wrappers`, an `Option` type.
- `js_text.dfy`: module `JsText`, JavaScript's `trim` (ECMAScript's full whitespace set) and the decimal rendering of a non-negative integer, with its inverse.
- `lista_spesa.dfy`: module `ListaSpesa`, the pure part of the shopping list:
  - the values and the reload;
  - the push reducer `Apply`;
  - the backend's table primitives and what each user action does to the table (`...Effect`);
  - the counters, the suggestion target and `formatTime`.
  - The relation `Mirrors` says that the slots show the left join of the table, timestamps aside. `ReplayKeepsMirror` proves that the push reducer keeps it through any sequence of table changes.
- `lista_spesa_component.dfy`: module `ListaSpesaComponent`, class `ShoppingList`. It holds the component's state (`items`, `selectedMember`, `loading`) and the remote table `store`. There is one method per handler. Each method's `ensures` gives the new state in terms of the functions of `ListaSpesa`.
- `bacheca_famiglia.dfy`: module `BachecaFamiglia`. The board is a value (`Board`), and every operation is a function, as in the source.

Modelling choices:
- The outcome of each backend call is the parameter `ok`. On an error the source logs it and returns, so nothing changes.
- The answer of the reload query is the parameter `Fetch`. The predicate `Lists` says when a sequence of rows is what `select('*').order('id')` returns for a table.
- The clock (`new Date().toISOString()`, `Date.now()`, `getTime()`) and `Math.random()` are parameters.
- Instants are integer milliseconds. `Math.floor(diff / k)` with `k > 0` is Dafny's `/`, which floors for a positive divisor, negative `diff` included.
- `window.confirm` is the parameter `confirmed`, and notification permission is the parameter `granted`.

Four points of the source that the model follows as written:
- The source has no optimistic local update: no user action changes the local slots. The view reaches the new state only through the push event.
- `clearAll` deletes the rows with `id != -1`, not literally every row. `ClearAllEffect` empties every table whose keys are slot ids, and a reload after it shows empty slots even when a row -1 survives (`ClearAllThenLoad`).
- `toggleComplete` stores the negation of the local flag, not of the stored one. The two agree when the view mirrors the table (`ToggleFlipsMirroredRow`).
- A reload copies each field through `||`. An empty `created_at` is replaced by the current time.

## Model

| member | source | states |
|---|---|---|
| JsText.Trim | src/components/ListaSpesa.tsx:105-111 | `trim()`: the result is no longer than the input and starts and ends with a non-whitespace character |
| JsText.TrimIsSlice | src/components/ListaSpesa.tsx:111 | the trimmed text is one contiguous slice of the input, and everything cut off on either side is whitespace |
| JsText.BlankIffAllWhitespace | src/components/ListaSpesa.tsx:105 | `!text.trim()` holds exactly when every character of the text is whitespace |
| JsText.TrimIdempotent | src/components/ListaSpesa.tsx:111 | trimming already-trimmed text changes nothing |
| JsText.Decimal | src/components/ListaSpesa.tsx:220-221 | the number in a `${n}` label is a non-empty string of digits with no leading zero |
| JsText.ParseDecimalOfDecimal | src/components/BachecaFamiglia.tsx:58 | a rendered number (`Date.now().toString()`, a label count) reads back as that number |
| JsText.DecimalInjective | src/components/BachecaFamiglia.tsx:58 | different clock readings give different note ids |
| ListaSpesa.InitialItems | src/components/ListaSpesa.tsx:20-28 | exactly 20 slots; slot `i` has id `i`, empty text and author, `completed` false, created at `now` |
| ListaSpesa.FirstWithId | src/components/ListaSpesa.tsx:85 | `find` by id yields the first row with that id, or none exactly when no row has it |
| ListaSpesa.Load | src/components/ListaSpesa.tsx:84-93 | a reload has 20 slots with slot `i` carrying id `i`; each slot takes text, author and flag from the first row with its id (timestamp through `||`), and a slot with no row is the canonical empty payload |
| ListaSpesa.LoadIsLeftJoin | src/components/ListaSpesa.tsx:73-93 | reloading from the ordered listing of a table gives exactly the left join of the table onto positions 0..19 |
| ListaSpesa.FindSkipsOtherId | src/components/ListaSpesa.tsx:85 | a row with a different id never changes what `find` returns |
| ListaSpesa.LoadIgnoresForeignRow | src/components/ListaSpesa.tsx:84-93 | a fetched row whose id is outside 0..19 has no effect on the reload |
| ListaSpesa.Apply | src/components/ListaSpesa.tsx:41-60 | a push event keeps the length, puts the new row (INSERT/UPDATE) or the canonical empty payload (DELETE) in the slot it names, and leaves every other slot; 20 well-formed slots stay well-formed |
| ListaSpesa.ApplyIdempotent | src/components/ListaSpesa.tsx:41-60 | a duplicated push event has the effect of a single one |
| ListaSpesa.ApplyKeepsMirror | src/components/ListaSpesa.tsx:37-60 | if the slots mirror the table, applying the event that reports a table change makes them mirror the changed table |
| ListaSpesa.ReplayKeepsMirror | src/components/ListaSpesa.tsx:37-64 | the same holds for any sequence of table changes and their events (one reducer for every origin of change) |
| ListaSpesa.LoadMirrors | src/components/ListaSpesa.tsx:84-93 | a reload from a listing of the table mirrors the table |
| ListaSpesa.Upsert | src/components/ListaSpesa.tsx:107-114 | the row for `id` gets text, author and flag; other rows are unchanged; an existing row keeps `created_at`, and a new row gets the column default |
| ListaSpesa.DeleteWhereId | src/components/ListaSpesa.tsx:142-145 | exactly row `id` is removed, and the other rows are unchanged |
| ListaSpesa.UpdateCompleted | src/components/ListaSpesa.tsx:169-172 | only `completed` of row `id` changes, and the set of rows is the same |
| ListaSpesa.DeleteWhereIdNot | src/components/ListaSpesa.tsx:189-192 | only a row with the kept id can survive, unchanged |
| ListaSpesa.ClearItemEffect | src/components/ListaSpesa.tsx:137-150 | with an empty local slot the table is unchanged; otherwise exactly row `id` is removed |
| ListaSpesa.UpdateItemEffect | src/components/ListaSpesa.tsx:103-131 | non-blank text: row `id` holds the trimmed (non-empty) text, the selected member and `completed = false`, whatever it held before, and no other row changes; blank text: exactly `clearItem(id)` |
| ListaSpesa.ToggleCompleteEffect | src/components/ListaSpesa.tsx:164-177 | with an empty local slot the table is unchanged; otherwise row `id` gets the negation of the local flag, with text, author and timestamp unchanged, and no other row changes |
| ListaSpesa.ClearAllEffect | src/components/ListaSpesa.tsx:188-192 | at most a row with id -1 survives, so a table keyed by slot ids becomes empty |
| ListaSpesa.WhitespaceUpdateIsClear | src/components/ListaSpesa.tsx:105-131 | writing whitespace-only text is exactly `clearItem` |
| ListaSpesa.UpdateThenLoad | src/components/ListaSpesa.tsx:103-119 | writing non-blank text and reloading shows the trimmed text, the member and `completed` false in that slot |
| ListaSpesa.ToggleFlipsMirroredRow | src/components/ListaSpesa.tsx:164-172 | on a mirroring view, toggling an occupied slot flips the stored flag of its row |
| ListaSpesa.ClearOnMirroredView | src/components/ListaSpesa.tsx:137-145 | on a mirroring view, clearing deletes row `id` exactly when that row holds text |
| ListaSpesa.ClearAllThenLoad | src/components/ListaSpesa.tsx:188-192 | after `clearAll`, a reload shows 20 canonical empty slots, for any table, since a surviving row -1 is not a slot |
| ListaSpesa.ScenarioToggle | src/components/ListaSpesa.tsx:164-172 | "Pane" by Matteo, toggled, becomes completed |
| ListaSpesa.ScenarioRewrite | src/components/ListaSpesa.tsx:103-114 | writing "Latte" as Bea over it gives "Latte", Bea, not completed, same timestamp |
| ListaSpesa.ScenarioClear | src/components/ListaSpesa.tsx:137-145 | clearing it leaves an empty table, and the slot shows the canonical empty payload |
| ListaSpesa.ActiveItems | src/components/ListaSpesa.tsx:209 | keeps each item with non-blank text as often as it occurs and drops every blank one |
| ListaSpesa.CompletedItems | src/components/ListaSpesa.tsx:210 | keeps each completed item as often as it occurs and drops the others |
| ListaSpesa.CompletedCount | src/components/ListaSpesa.tsx:210 | the completed count never exceeds the number of active items |
| ListaSpesa.CountersBounded | src/components/ListaSpesa.tsx:209-210 | completed count <= active count <= 20 |
| ListaSpesa.FirstEmpty | src/components/ListaSpesa.tsx:337 | yields the first slot with empty text, or none exactly when every slot has text |
| ListaSpesa.SuggestEffect | src/components/ListaSpesa.tsx:336-340 | a suggestion click leaves the table unchanged when no slot is empty, and otherwise changes at most the row of the first empty slot |
| ListaSpesa.SuggestionFillsFirstEmpty | src/components/ListaSpesa.tsx:336-340 | a suggestion upserts itself, uncompleted and by the member, into the first empty slot, and does nothing when no slot is empty |
| ListaSpesa.SuggestionIsTrimmed | src/components/ListaSpesa.tsx:333 | every suggestion label is non-blank and already trimmed |
| ListaSpesa.FormatTime | src/components/ListaSpesa.tsx:212-223 | the label is "ora", the locale date, or a digit string followed by "m fa" or "h fa"; the buckets `FormatTimeJustNow`, `FormatTimeMinutes`, `FormatTimeHours` and `FormatTimeDate` together cover every elapsed time |
| ListaSpesa.FormatTimeJustNow | src/components/ListaSpesa.tsx:212-219 | under one minute (or a future timestamp) the label is "ora" |
| ListaSpesa.FormatTimeMinutes | src/components/ListaSpesa.tsx:212-220 | `m` whole minutes, for `m` from 1 to 59, read "`m`m fa" |
| ListaSpesa.FormatTimeHours | src/components/ListaSpesa.tsx:212-221 | `h` whole hours, for `h` from 1 to 23, read "`h`h fa" |
| ListaSpesa.FormatTimeDate | src/components/ListaSpesa.tsx:212-222 | a day or more gives the locale date string |
| ListaSpesaComponent.ShoppingList.constructor | src/components/ListaSpesa.tsx:20-30 | the initial state: 20 empty slots, the first family member, loading |
| ListaSpesaComponent.ShoppingList.SelectMember | src/components/ListaSpesa.tsx:29 | the selected member becomes the one picked |
| ListaSpesaComponent.ShoppingList.LoadShoppingItems | src/components/ListaSpesa.tsx:71-101 | on an error the slots are unchanged; otherwise they are the reload of the rows, which is the table's left join when the rows list the table; loading ends either way |
| ListaSpesaComponent.ShoppingList.OnChange | src/components/ListaSpesa.tsx:40-62 | the slots become `Apply` of the event: same length, only the named slot replaced, still well-formed |
| ListaSpesaComponent.ShoppingList.UpdateItem | src/components/ListaSpesa.tsx:103-135 | the table becomes `UpdateItemEffect`, or is unchanged when the call fails |
| ListaSpesaComponent.ShoppingList.ClearItem | src/components/ListaSpesa.tsx:137-162 | the table becomes `ClearItemEffect`, or is unchanged when the call fails |
| ListaSpesaComponent.ShoppingList.ToggleComplete | src/components/ListaSpesa.tsx:164-181 | the table becomes `ToggleCompleteEffect`, or is unchanged when the call fails |
| ListaSpesaComponent.ShoppingList.ClearAll | src/components/ListaSpesa.tsx:183-207 | unchanged if not confirmed or the call fails; otherwise `ClearAllEffect`, so empty for a slot-keyed table |
| ListaSpesaComponent.ShoppingList.Suggest | src/components/ListaSpesa.tsx:336-340 | the table becomes `SuggestEffect` (an `updateItem` on the first empty slot), or is unchanged when the call fails |
| BachecaFamiglia.InitialBoard | src/components/BachecaFamiglia.tsx:28-31 | the board starts with no notes, an empty draft, the first family member (`familyMembers[0]`) as author and the form closed |
| BachecaFamiglia.PickColor | src/components/BachecaFamiglia.tsx:61 | for `Math.random()` in [0, 1) the colour is one of the six palette entries |
| BachecaFamiglia.AddPostIt | src/components/BachecaFamiglia.tsx:54-67 | a blank draft leaves the whole state unchanged; otherwise exactly one note is appended after the unchanged earlier notes, with the untrimmed message, the author, the clock id, the timestamp and a palette colour; the draft becomes `''` and the form closes |
| BachecaFamiglia.NotificationBody | src/components/BachecaFamiglia.tsx:72 | at most 53 characters; the message itself when it has at most 50; otherwise its first 50 characters followed by `...` |
| BachecaFamiglia.AddNotification | src/components/BachecaFamiglia.tsx:69-75 | a notification exactly when permission is granted and the draft is not blank, titled with the author, whose body is exactly `NotificationBody` of the draft (at most 53 characters) |
| BachecaFamiglia.WithoutId | src/components/BachecaFamiglia.tsx:79 | no note with the deleted id remains, and the list does not grow |
| BachecaFamiglia.WithoutIdCounts | src/components/BachecaFamiglia.tsx:79 | every note with another id is kept as often as it occurred |
| BachecaFamiglia.WithoutIdConcat | src/components/BachecaFamiglia.tsx:79 | the filter distributes over concatenation, so kept notes keep their relative order |
| BachecaFamiglia.WithoutAbsentId | src/components/BachecaFamiglia.tsx:79 | deleting an id that no note carries leaves the list unchanged |
| BachecaFamiglia.DeletePostIt | src/components/BachecaFamiglia.tsx:78-80 | only the note list changes, and it becomes `WithoutId` of the old list: it does not grow, no note with the id remains, the others keep their count (`WithoutIdCounts`) and their order (`WithoutIdConcat`) |
| BachecaFamiglia.AddThenDelete | src/components/BachecaFamiglia.tsx:54-80 | deleting the note just added restores the earlier notes when no earlier note had its id |
| BachecaFamiglia.FormatTime | src/components/BachecaFamiglia.tsx:82-90 | the label is "Proprio ora", the locale date, or a digit string followed by "h fa"; the buckets `FormatTimeJustNow`, `FormatTimeHours` and `FormatTimeDate` together cover every elapsed time |
| BachecaFamiglia.FormatTimeJustNow | src/components/BachecaFamiglia.tsx:82-87 | under one hour (or a future timestamp) the label is "Proprio ora" |
| BachecaFamiglia.FormatTimeHours | src/components/BachecaFamiglia.tsx:82-88 | `h` whole hours, for `h` from 1 to 23, read "`h`h fa", and the count reads back as `h` |
| BachecaFamiglia.FormatTimeDate | src/components/BachecaFamiglia.tsx:82-89 | a day or more gives the locale date string |

## Left out

- The backend client, `async`/`await`, and subscribing to and unsubscribing from the realtime channel are not modelled. The table is the map `store`, and each call's success is the parameter `ok`.
- The order in which push events and a client's own calls interleave is not modelled; that is concurrency. `ReplayKeepsMirror` covers any order in which the table changes.
- Browser notifications in the shopping list (`new Notification` after a write, a delete or a `clearAll`) are left out. They are a foreign API and change no state. For the board, only the notification's title and body are modelled.
- The board's persistence in `localStorage` via `JSON.stringify`/`JSON.parse` is not modelled (foreign API).
- The shopping list's geolocation demo button (a notification with the active-item count once a position is obtained) is a UI demo over foreign APIs.
- `window.confirm` is the parameter `confirmed`. The server-side case, where `window` is undefined, behaves like a confirmation.
- `toLocaleDateString('it-IT')` is the parameter `localeDate`. Parsing ISO timestamps into instants is left out, since `formatTime` takes integer milliseconds. An unparsable timestamp (`NaN`) is not modelled.
- `created_at` is an opaque string. `Mirrors` compares text, author and flag only. The reload and push events put different clock readings into empty slots.
- `ReplayKeepsMirror` uses one clock reading for all events. The relation it proves ignores timestamps.
- The markup and its wiring are not modelled: styling, `maxLength`, the per-keystroke `onChange` that calls `updateItem`, and the disabled buttons.
- `src/app/page.tsx` (tabs and a timer-driven random counter), `src/app/layout.tsx` (metadata, service-worker registration) and `tailwind.config.js` are not part of this model.
- ListaSpesa.Apply: an event whose id is not a position 0..19 leaves the slots unchanged. In JavaScript, an index of 20 or more would grow the array with holes, and a negative one would add a non-index property. The table's ids are slot ids, so neither happens.
- ListaSpesa.Load: fetched and pushed rows have no null columns. `||` is modelled for empty strings and `false`, which are the only falsy values a non-null column can hold.
- BachecaFamiglia.NotificationBody: lengths count Unicode scalar values, while JavaScript's `substring` and `length` count UTF-16 code units. Text outside the Basic Multilingual Plane is therefore cut differently.
- JsText.Trim: strings are sequences of Unicode scalar values, with no UTF-16 surrogates.
