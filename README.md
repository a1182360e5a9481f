# To-do list app: task-list state and its two dialogs

A model of the state handling of a small React Native to-do list. The home
screen keeps a list of tasks `{id, text, completed}`, shows newest first, and
passes every change through a save effect that writes the list to local
storage only when it is non-empty. Two dialogs capture text: the add dialog
emits a new task's text, and the edit dialog, seeded from the staged task,
emits `(id, text)`. Both ignore a blank buffer, where blank means what
JavaScript's `String.prototype.trim` leaves empty.

Modules:

- `Wrappers`: `Option`, standing for React state that may be `null`.
- `Text`: `trim` over ECMAScript's whitespace and line terminators, and `IsBlank`.
- `Tasks`: the `Task` datatype and the list handlers as functions over
  `seq<Task>`: prepend, `map` and `filter`. Lemmas cover order, the fields
  each handler changes, involution, idempotence, undo, uniqueness of ids and
  the save guard.
- `AddDialog`, `EditDialog`: a class per dialog. The class holds the text
  buffer, and for the edit dialog also the last `initialTask` prop. Its
  methods return the callbacks they fire, in the order they fire them.
- `Home`: the `HomeScreen` class. It holds the screen's state and a ghost log
  of the lists the save effect writes. It also owns the two dialogs.

The code acts on every entry with a matching id. Ids come from the clock and
may collide, so uniqueness is only a hypothesis of the lemmas that preserve
it. Several behaviours of the code are easy to misread, and the model follows
the code:

- The screen's add and save handlers do not check for blank text. Only the
  dialogs do.
- Delete drops every entry with the id. It drops exactly one only when ids are
  unique (`Tasks.DeleteRemovesOne`).
- Cancel leaves both dialogs' buffers as they were.
- When the staged task becomes null, the edit dialog's buffer keeps its text.
  It is not reset to empty.
- A successful save in the edit dialog does not clear its buffer. Only the add
  dialog clears its buffer, and only after a successful submit.
- Neither dialog trims the text it passes on. The trim only decides whether
  the text is blank, so a task can keep leading and trailing spaces.

Because of the save guard, deleting the last task writes nothing
(`Tasks.PersistAfterDelete`, `Home.HomeScreen.HandleDeleteTodo`). Storage
therefore still holds the list from before that delete.

## Model

| member | source | states |
|---|---|---|
| `Text.TrimStart` | src/components/AddTaskModal.js:10 | the result is a suffix of the input; everything dropped is whitespace; it does not start with whitespace |
| `Text.TrimEnd` | src/components/AddTaskModal.js:10 | the result is a prefix of the input; everything dropped is whitespace; it does not end with whitespace |
| `Text.Trim` | src/components/EditTaskModal.js:17 | the trimmed text is a slice of the input with only whitespace before and after it, and it neither starts nor ends with whitespace |
| `Text.TrimIdempotent` | src/components/AddTaskModal.js:10 | trimming twice gives the same result as trimming once |
| `Text.IsBlank` | src/components/AddTaskModal.js:10 | the dialogs' guard `trim().length > 0` fails, so the text is blank, exactly when every character is whitespace |
| `Tasks.AddTask` | src/screens/HomeScreen.js:55-61 | the list is one longer; the first entry has the given id and text and is not completed; the old list follows unchanged and in order; the id set gains the new id |
| `Tasks.AddAcceptsBlank` | src/screens/HomeScreen.js:55-61 | for every blank text, the screen's add handler still grows the list by one, keeps the text as given, and the save runs |
| `Tasks.AddKeepsUnique` | src/screens/HomeScreen.js:56-61 | adding under an id not yet in the list keeps ids unique |
| `Tasks.DeleteUndoesAdd` | src/screens/HomeScreen.js:61 | deleting the id just added, when it was fresh, gives back the old list |
| `Tasks.ToggleTodo` | src/screens/HomeScreen.js:64-70 | length, order, ids and texts are kept; `completed` flips exactly on the entries whose id matches |
| `Tasks.ToggleTwice` | src/screens/HomeScreen.js:66-67 | toggling the same id twice restores the list |
| `Tasks.ToggleAbsent` | src/screens/HomeScreen.js:66-67 | toggling an id not in the list is the identity |
| `Tasks.ToggleKeepsIds` | src/screens/HomeScreen.js:66-67 | toggle keeps the id set, and unique ids stay unique |
| `Tasks.DeleteTodo` | src/screens/HomeScreen.js:72-74 | the result is never longer than the list; its specification is `DeleteMembers`, `DeleteLength` and `DeleteAppend` below |
| `Tasks.DeleteMembers` | src/screens/HomeScreen.js:72-74 | an entry is in the result of delete exactly when it was in the list with a different id |
| `Tasks.DeleteLength` | src/screens/HomeScreen.js:73 | delete shortens the list by the number of entries with that id |
| `Tasks.DeleteAppend` | src/screens/HomeScreen.js:73 | delete distributes over concatenation, so kept entries stay in their original order |
| `Tasks.DeleteIds` | src/screens/HomeScreen.js:73 | the id set loses exactly the deleted id |
| `Tasks.DeleteIdempotent` | src/screens/HomeScreen.js:73 | afterwards no entry has that id, and a second delete with it changes nothing |
| `Tasks.DeleteAbsent` | src/screens/HomeScreen.js:73 | deleting an id not in the list is the identity |
| `Tasks.DeleteRemovesOne` | src/screens/HomeScreen.js:73 | with unique ids, deleting a present id removes exactly one entry |
| `Tasks.DeleteKeepsUnique` | src/screens/HomeScreen.js:73 | delete keeps ids unique |
| `Tasks.EditTodo` | src/screens/HomeScreen.js:81-86 | length, order, ids and `completed` flags are kept; `text` becomes the new text exactly on the matching entries |
| `Tasks.EditLastWins` | src/screens/HomeScreen.js:82-86 | saving twice under one id keeps only the second text |
| `Tasks.EditAbsent` | src/screens/HomeScreen.js:82-86 | saving under an id not in the list changes nothing |
| `Tasks.EditKeepsIds` | src/screens/HomeScreen.js:82-86 | edit keeps the id set, and unique ids stay unique |
| `Tasks.ShouldPersist` | src/screens/HomeScreen.js:50-52 | the save runs exactly when some task is in the list |
| `Tasks.PersistAfterChange` | src/screens/HomeScreen.js:50-52 | after an add the save runs; after a toggle or an edit it runs exactly when the list was non-empty |
| `Tasks.PersistAfterDelete` | src/screens/HomeScreen.js:50-52 | after a delete no save runs exactly when every entry had that id, as when the last task is deleted |
| `Tasks.BuyMilkScenario` | src/screens/HomeScreen.js:55-74 | adding "Buy milk" to the empty list, toggling it and deleting it gives one incomplete task, then one completed task, then the empty list |
| `AddDialog.AddTaskModal.constructor` | src/components/AddTaskModal.js:7 | the buffer starts empty |
| `AddDialog.AddTaskModal.ChangeText` | src/components/AddTaskModal.js:35 | the buffer becomes the typed text |
| `AddDialog.AddTaskModal.Submit` | src/components/AddTaskModal.js:9-15 | on a blank buffer nothing is emitted and the buffer stays; otherwise the untrimmed buffer is emitted, then close is requested once, and the buffer is empty |
| `AddDialog.AddTaskModal.Cancel` | src/components/AddTaskModal.js:40-41 | cancel only requests close; the buffer is not touched |
| `EditDialog.EditTaskModal.constructor` | src/components/EditTaskModal.js:7-14 | the buffer starts as the given task's text, or empty when there is none |
| `EditDialog.EditTaskModal.ChangeText` | src/components/EditTaskModal.js:41 | the buffer becomes the typed text |
| `EditDialog.EditTaskModal.Render` | src/components/EditTaskModal.js:10-14 | when the staged task changes to a task, the buffer becomes its text; when it does not change or becomes null, the buffer is left as it was |
| `EditDialog.EditTaskModal.Submit` | src/components/EditTaskModal.js:16-21 | something is emitted exactly when the buffer is not blank and a task is staged; then it is the staged id with the untrimmed buffer, followed by a close request; the buffer never changes |
| `EditDialog.EditTaskModal.Cancel` | src/components/EditTaskModal.js:46-47 | cancel only requests close |
| `Home.HomeScreen.constructor` | src/screens/HomeScreen.js:16-20 | an empty list, both dialogs hidden, no staged task, nothing saved |
| `Home.HomeScreen.SetTodos` | src/screens/HomeScreen.js:39-53 | the list is replaced, and it is logged as saved only when it is non-empty |
| `Home.HomeScreen.HandleAddTask` | src/screens/HomeScreen.js:55-62 | the list becomes the add of the old list, and that list is saved |
| `Home.HomeScreen.HandleToggleTodo` | src/screens/HomeScreen.js:64-70 | the list becomes the toggle of the old list, saved when non-empty |
| `Home.HomeScreen.HandleDeleteTodo` | src/screens/HomeScreen.js:72-74 | the list becomes the delete of the old list; nothing is saved when every entry had that id |
| `Home.HomeScreen.HandleOpenEditModal` | src/screens/HomeScreen.js:76-79 | the task is staged, the edit dialog is shown, and its buffer is seeded when the staged task changed |
| `Home.HomeScreen.HandleSaveTask` | src/screens/HomeScreen.js:81-89 | the list becomes the edit of the old list; the edit dialog is hidden and the staged task is null; the dialog's buffer is unchanged |
| `Home.HomeScreen.OpenAddModal` | src/screens/HomeScreen.js:113-116 | the add dialog is shown |
| `Home.HomeScreen.CloseAddModal` | src/screens/HomeScreen.js:120-124 | the add dialog is hidden |
| `Home.HomeScreen.CloseEditModal` | src/screens/HomeScreen.js:126-131 | the edit dialog is hidden and the staged task is null; the dialog's buffer keeps its text |
| `Home.HomeScreen.SubmitAddModal` | src/screens/HomeScreen.js:120-124 | through the add dialog, a blank buffer changes nothing; otherwise the untrimmed text is prepended and saved, the buffer is cleared and the dialog hidden |
| `Home.HomeScreen.CancelAddModal` | src/components/AddTaskModal.js:40-41 | the add dialog is hidden and its buffer keeps its text |
| `Home.HomeScreen.SubmitEditModal` | src/screens/HomeScreen.js:126-134 | through the edit dialog, a blank buffer or no staged task changes nothing; otherwise the staged id's entries get the untrimmed text, the list is saved when non-empty, the dialog is hidden and nothing is staged |

## Left out

- Loading the list at mount (src/screens/HomeScreen.js:23-36): it is an AsyncStorage read followed by `JSON.parse`, both foreign calls, so it is not modelled. `JSON.stringify` and the storage write are left out too, and with them the round trip of writing a list and reading it back. The save effect appears only as its guard and as a ghost log of the lists it would write. The log ignores asynchrony and write failures, which are logged and swallowed.
- Id generation with `Date.now().toString()` (src/screens/HomeScreen.js:57): it reads the clock, so the id is a parameter of `HandleAddTask` and `SubmitAddModal`.
- React's effect dependencies compare by reference. `EditDialog.EditTaskModal.Render` compares the `initialTask` prop by value, so re-staging an equal but distinct task object does not reseed the buffer in the model.
- React batches the setters within one handler and renders once. The model applies them in sequence, which gives the same final state.
- Rendering: JSX, styles, Modal, KeyboardAvoidingView, Platform, FlatList, the status bar, src/components/TodoItem.js (it only chooses an icon and a colour from `completed`) and src/constants/colors.js (a constant palette).
- The light/dark theme preference: the screen shown here holds no theme state.
- Strings are sequences of Unicode scalar values rather than UTF-16 code units. Every character `trim` strips is a single code unit, so blankness agrees.
