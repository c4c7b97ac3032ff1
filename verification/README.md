# Shopping list: the list state and its three updates

The app keeps a shopping list as an ordered list of records
`{key, item, isDone}` in the screen's `listItems` state. The user changes it in three ways:

- **add**: the entered text becomes a new record. Both its key and its label are that text, and it starts not done. Only the exact empty string is refused.
- **check**: every record whose key equals the pressed record's key is set done. The handler copies the list and updates each matching record inside a loop.
- **delete**: every record whose key equals the pressed record's key is filtered out.

When the app starts, the list is read back from the device's key-value store if a stored list is present.

The model has two modules:

- `Items` (`items.dfy`) describes the list as a value. It holds the record datatype and the three updates as functions on sequences: `Added`, `Marked` and `Removed`. It also has a count of records per key, the user requests as a datatype with a run of them, and the lemmas about all of these.
- `App` (`app.dfy`) holds the screen state as the class `ShoppingList`. Its field `listItems` is what the handlers reassign. The check handler copies the list into an array and marks it in place with a loop (`MarkAll`). Each handler is proved to leave the list equal to the matching function of `Items`.

The model keeps the code's own behaviour in three places where one might expect otherwise:

- Add refuses only `""`. Text made only of blanks is appended, not ignored.
- Delete removes every record with the key, not only the first.
- Nothing stops two records from having the same key.

## Model

| member | source | states |
|---|---|---|
| Items.CountKey | App.js:57 | the number of records with a key is at most the list's length, and it is zero exactly when no record has that key |
| Items.CountKeyAppend | App.js:41 | the count of a key in a concatenation is the sum of the counts of the two parts |
| Items.AddEmptyIsNoOp | App.js:33-35 | adding the exact empty string leaves the list unchanged |
| Items.AddAppendsOne | App.js:36-41 | adding non-empty text grows the list by one: every earlier record stays at its index, and the new last record is `{key: text, item: text, isDone: false}` |
| Items.AddAllowsDuplicates | App.js:36-41 | adding text that is already a key gives one more record with that key, so duplicate keys can arise |
| Items.AddRefusesOnlyEmpty | App.js:33-41 | adding leaves the list unchanged if and only if the text is the exact empty string; any other text, whitespace-only included, changes it |
| Items.Marked | App.js:47-53 | checking key k keeps the length and every record's key and label; a record is done afterwards exactly when it was done before or its key is k, so checking never clears `isDone` and records with other keys keep their flag |
| Items.MarkedIdempotent | App.js:48-52 | checking the same key twice gives the same list as checking it once |
| Items.MarkAbsentIsNoOp | App.js:48-52 | checking a key that no record has leaves the list unchanged |
| Items.Removed | App.js:57 | deleting key k shortens the list by exactly the number of records with key k, and no record with key k remains |
| Items.RemovedMembers | App.js:57 | a record survives a delete of key k if and only if it was in the list and its key is not k; survivors are whole records, so their label and `isDone` are unchanged |
| Items.RemovedAppend | App.js:57 | deleting from a concatenation is the concatenation of the two deletes, so survivors keep their original relative order |
| Items.RemovedUnchangedIff | App.js:57 | a delete leaves the list unchanged if and only if no record has the key |
| Items.RemovedIdempotent | App.js:57 | deleting the same key twice gives the same list as deleting it once |
| Items.ApplyKeepsWellFormed | App.js:32-59 | each of add, check and delete keeps every record's key equal to its label and non-empty |
| Items.RunKeepsWellFormed | App.js:32-59 | any run of add, check and delete requests keeps that property, for example a run that starts from the empty list |
| App.MarkAll | App.js:48-52 | the in-place loop over the copied list leaves the array equal to `Marked` of its old contents |
| App.ShoppingList.constructor | App.js:13 | the list starts empty |
| App.ShoppingList.RetrieveItems | App.js:16-21 | the list becomes the stored list when the store holds one; otherwise it is unchanged |
| App.ShoppingList.HandleAdd | App.js:32-44 | the new list is `Added` of the old one: unchanged for `""`, otherwise the old list plus `{key: text, item: text, isDone: false}` at the end |
| App.ShoppingList.MarkCheck | App.js:46-54 | the new list is `Marked` of the old one, for the pressed record's key, computed by copying into an array and running `MarkAll` |
| App.ShoppingList.DeleteItem | App.js:56-59 | the new list is `Removed` of the old one, for the pressed record's key |
| App.ShoppingList.Dispatch | components/Item/index.js:12-26 | a press on a record's check or delete button, or a save in the add dialog, changes the list as `Apply` says |

## Left out

- Writing the list to the store after every change is not modelled (App.js:25-30). Neither is encoding it as JSON. Both go through an asynchronous foreign library, so a round-trip property would only restate that library's promise.
- App.ShoppingList.RetrieveItems: it takes the already decoded stored list as a parameter (`None` when the store returns nothing). Reading the store and decoding the text are not modelled, and neither is the failure of a stored text that does not decode. The source does not handle that failure.
- The order of the first read and the first write is not modelled. Both run asynchronously when the screen is first shown, and the model does not capture how they interleave.
- The open/closed state of the add dialog and the text field's contents are not modelled (App.js:11-12, 42-43). The handler closes the dialog and clears the field after adding. `HandleAdd` takes the entered text as a parameter instead.
- App.ShoppingList.MarkCheck: the source copies the list shallowly, so it also sets `isDone` on the record objects that the previous state shares. The model treats records as values and does not capture that aliasing. The new list is the same either way.
- Rendering is not modelled: colours, strike-through, icons, animations and styles (components/Item/index.js, App.js:61-226).
