# To-do list widget: list logic

This project models the list-management logic of a single-page to-do widget
and proves properties of it. The widget keeps an ordered list of to-do
items (`id`, `text`, `completed`, `createdAt`), newest first. Five handlers
turn the current list into a new one:

- submit: trim the input, ignore it when blank, otherwise put a new,
  not yet completed item in front;
- toggle: flip `completed` on the item with a given id;
- remove: drop the item with a given id;
- clear completed: drop every completed item;
- the filtered view (`All`, `Active`, `Completed`), the count of active
  items and the condition that disables "Clear Completed".

An older version of the same widget (`ToDo.jsx`) is modelled on its own,
because it behaves differently: its submit appends the untrimmed input, even
blank input, and its ids are random numbers 0..9. Two items can therefore
share an id, and removing that id drops both.

Every handler in the source builds a fresh array with spread, `concat`,
`map` or `filter` and passes it to the state setter. None of them mutates
anything. So every handler is a Dafny function from the old list (and the
handler's inputs) to the new list.

Files:

- `js_array.dfy` (module `JsArray`): `Array.prototype.filter`, `map` and
  `every`, with the facts about `filter` that the handlers rely on:
  membership, multiplicities, order (`IsSubsequence`), splitting by a test
  and its negation, and idempotence.
- `text.dfy` (module `Text`): `String.prototype.trim` over the ECMAScript
  whitespace set, as a forward scan past the leading whitespace and a
  backward scan past the trailing whitespace.
- `todo_list.dfy` (module `TodoList`): `ToDo.tsx`. It defines the list
  invariant `Valid`: ids are unique, and every text is non-empty and equal
  to its own trim. The lemmas show that every handler preserves it, and
  they state the handler properties and a sample session.
- `legacy_todo_list.dfy` (module `LegacyTodoList`): `ToDo.jsx`.

The generated id and the creation time are parameters of submit. In
`ToDo.tsx` the id comes from `Date.now()` and `Math.random()`. The model
does not assume it is fresh: `TodoList.Submit` accepts any id, as the code
does. Only the lemmas that need fresh ids say so in their `requires`: the
invariant lemma `SubmitKeepsValid`, the round trip `RemoveUndoesSubmit`, and
the sample `Session`, which uses two different ids.

Two facts about the code that the model keeps:

- Loading is left out; `JSON.parse` at src/components/ToDo.tsx:21 is not
  guarded, so malformed stored data throws.
- Removing shrinks the list by exactly one only when ids are unique
  (`RemoveShrinksByOne` requires `UniqueIds`); in the older widget remove can
  drop several items (`SharedIdRemovesBoth`).

## Model

| member | source | states |
|---|---|---|
| `JsArray.Filter` | src/components/ToDo.tsx:59 | `filter` keeps exactly the elements that pass the test, and the result is no longer than the input |
| `JsArray.Map` | src/components/ToDo.tsx:53 | `map` returns one result per element: the same length, and at every index the callback applied to the element at that index |
| `JsArray.Every` | src/components/ToDo.tsx:154 | `every` holds exactly when no element fails the test, so it holds on the empty list |
| `JsArray.FilterCounts` | src/components/ToDo.tsx:63 | `filter` keeps each passing element exactly as many times as it occurs and drops every failing one |
| `JsArray.FilterKeepsOrder` | src/components/ToDo.tsx:59 | `filter` keeps the relative order of the elements it keeps (the result is a subsequence of the input) |
| `JsArray.FilterPartition` | src/components/ToDo.tsx:66-70 | filtering by a test and by its negation splits a list: the two multisets add up to the list's, no element is in both, and the lengths add up to the list's length |
| `JsArray.FilterSameTest` | src/components/ToDo.tsx:67 | two tests that agree on every element give the same filtered list, so `activeTodos`, the Active view and clear-completed select the same items |
| `JsArray.FilterIdempotent` | src/components/ToDo.tsx:63 | filtering twice by the same test equals filtering once |
| `JsArray.FilterAppend` | src/components/ToDo.jsx:13-17 | filtering a concatenation equals concatenating the filtered parts |
| `Text.IsWhitespace` | src/components/ToDo.tsx:40 | among ASCII characters, exactly space and tab through carriage return count as whitespace for `trim`; every whitespace character lies in the Basic Multilingual Plane |
| `Text.SkipBlanks` | src/components/ToDo.tsx:40 | the scan stops at the first character that is not whitespace (or at the end), and everything it passed is whitespace |
| `Text.BackOverBlanks` | src/components/ToDo.tsx:40 | the backward scan stops just after the last character that is not whitespace (or at its lower bound), and everything it passed is whitespace |
| `Text.Trim` | src/components/ToDo.tsx:40 | `trim()` is empty exactly when the input is blank; otherwise its first and last characters are not whitespace |
| `Text.TrimIsInfix` | src/components/ToDo.tsx:43 | `trim()` is the piece of the input between a whitespace-only prefix and a whitespace-only suffix |
| `Text.TrimKeepsTrimmed` | src/components/ToDo.tsx:43 | a non-empty string that neither starts nor ends with whitespace is its own trim |
| `Text.TrimIdempotent` | src/components/ToDo.tsx:43 | trimming a trimmed string changes nothing |
| `TodoList.Submit` | src/components/ToDo.tsx:38-50 | blank input leaves the list unchanged. Otherwise the list grows by one: the new item at index 0 has the given id, the trimmed input as text, `completed == false` and the given time, and the old list follows unchanged at indices 1.. |
| `TodoList.Toggle` | src/components/ToDo.tsx:52-56 | same length and order; `completed` is inverted exactly on the items with the matching id; `id`, `text` and `createdAt` never change; an absent id is a no-op |
| `TodoList.Remove` | src/components/ToDo.tsx:58-60 | no item with that id remains; every other item is kept, as often as before and in its original relative order; an absent id is a no-op |
| `TodoList.ClearCompleted` | src/components/ToDo.tsx:62-64 | keeps exactly the incomplete items, as often as before and in their original order |
| `TodoList.Flip` | src/components/ToDo.tsx:53-54 | the `map` callback of toggle inverts `completed` exactly when the item's id matches, and never changes `id`, `text` or `createdAt` |
| `TodoList.Shows` | src/components/ToDo.tsx:66-70 | the test of `filteredTodos`: `All` shows every item, `Active` exactly the incomplete ones, `Completed` exactly the completed ones |
| `TodoList.View` | src/components/ToDo.tsx:66-70 | `All` shows the whole list; `Active` shows exactly the incomplete items and `Completed` exactly the completed ones, in list order |
| `TodoList.ActiveCount` | src/components/ToDo.tsx:72 | `activeTodos` equals the length of the Active view, and it plus the length of the Completed view is the length of the list |
| `TodoList.ClearDisabled` | src/components/ToDo.tsx:154 | "Clear Completed" is disabled exactly when the active count equals the list length, exactly when the Completed view is empty, and exactly when clearing would change nothing |
| `TodoList.TrimmedTextIsTrimFixed` | src/components/ToDo.tsx:43 | an item's text satisfies the invariant exactly when it is non-empty and equal to its own trim |
| `TodoList.SubmitTrimmedInput` | src/components/ToDo.tsx:40-47 | input with nothing to trim is stored exactly as typed, in front of the list |
| `TodoList.SubmitKeepsValid` | src/components/ToDo.tsx:40-47 | submitting with an unused id keeps ids unique and every text non-empty and trimmed |
| `TodoList.ToggleKeepsValid` | src/components/ToDo.tsx:52-56 | toggling keeps the list invariant |
| `TodoList.FilterKeepsUniqueIds` | src/components/ToDo.tsx:58-64 | any filtering of a list with unique ids has unique ids |
| `TodoList.FilterKeepsValid` | src/components/ToDo.tsx:58-64 | any filtering of a valid list is valid |
| `TodoList.RemoveKeepsValid` | src/components/ToDo.tsx:58-60 | removing keeps the list invariant |
| `TodoList.ClearCompletedKeepsValid` | src/components/ToDo.tsx:62-64 | clearing completed items keeps the list invariant |
| `TodoList.ToggleTwice` | src/components/ToDo.tsx:53-55 | toggling the same id twice gives back the original list |
| `TodoList.RemoveUndoesSubmit` | src/components/ToDo.tsx:40-60 | removing the id just used by a submit, when it was unused before, gives back the list from before the submit |
| `TodoList.RemoveShrinksByOne` | src/components/ToDo.tsx:58-60 | with unique ids, removing an id in use makes the list exactly one shorter |
| `TodoList.RemoveIdempotent` | src/components/ToDo.tsx:58-60 | removing the same id twice equals removing it once |
| `TodoList.ClearCompletedIdempotent` | src/components/ToDo.tsx:62-64 | clearing twice equals clearing once |
| `TodoList.ClearCompletedIsActiveView` | src/components/ToDo.tsx:62-67 | what clear-completed keeps is exactly the Active view |
| `TodoList.ViewPartition` | src/components/ToDo.tsx:66-70 | the All view is the whole list; the Active and Completed views together hold every item as often as the list does, share no item, and their lengths sum to the list's length |
| `TodoList.OneActiveOneDone` | src/components/ToDo.tsx:62-72 | a two-item list with the first item active and the second completed has one active item, and clearing keeps only the first |
| `TodoList.Session` | src/components/ToDo.tsx:38-72 | from an empty list, adding "Buy milk" and then "Walk dog" gives [Walk dog, Buy milk]. Toggling "Buy milk" leaves one active item, and clearing completed items leaves [Walk dog] |
| `LegacyTodoList.Submit` | src/components/ToDo.jsx:12-14 | the list always grows by one, even for blank input: the prior items are unchanged and the new item, last, holds the input exactly as typed and the drawn id |
| `LegacyTodoList.Remove` | src/components/ToDo.jsx:17 | every item carrying the id is dropped, however many there are; every other item is kept, as often as before and in order; an id no item carries is a no-op |
| `LegacyTodoList.RemoveIdempotent` | src/components/ToDo.jsx:17 | removing the same id twice equals removing it once |
| `LegacyTodoList.RemoveAfterSubmit` | src/components/ToDo.jsx:12-17 | removing the id just drawn removes the new item together with every older item that drew the same id |
| `LegacyTodoList.SharedIdRemovesBoth` | src/components/ToDo.jsx:4-17 | two submissions can draw the same id; removing it then empties the two-item list |

## Left out

- Loading from and saving to `localStorage` (src/components/ToDo.tsx:18-32): browser I/O and JSON. It also does not round-trip exactly, since `createdAt` is saved as a `Date` and read back as a string.
- `generateID` (src/components/ToDo.tsx:34-36, src/components/ToDo.jsx:4-6) and `new Date()`: clock and randomness. The id and the time are parameters. The older widget's id is a parameter limited to 0..9.
- Clearing the input box after a submit (`setInput('')`), `preventDefault` and the input's `onChange`: the model covers the list only, not the text field.
- Dark-mode detection and toggle, all JSX rendering, CSS classes, aria labels, the "item/items" wording and the "Drag and drop to reorder list" text (no reordering is implemented).
- React's state and effect scheduling: each handler is a function from the list it reads to the list it sets.
- `src/App.tsx` only mounts the component.
- Text.IsWhitespace: the space separators (Unicode category Zs) are those of the current Unicode version. Strings are sequences of Unicode scalar values rather than UTF-16 code units. This makes no difference to `trim`, because every whitespace character is in the Basic Multilingual Plane, as the contract of `IsWhitespace` states.
- `Timestamp` is an integer the model never inspects. The source stores a JavaScript `Date` object.
