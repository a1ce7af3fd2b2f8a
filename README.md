# Task list state of "Minhas Tarefas"

A model of the state logic of a single-screen React Native to-do app. The
app keeps an ordered list of tasks (`id`, `title`, `done`). A text field
adds a task: the typed text is trimmed, blank text is ignored, and any other
text becomes a new, not yet done task at the end of the list, after which
the field is cleared. Tapping a task flips `done` on every task with that
id. Tapping its delete button drops every task with that id.

The model has four modules:

- `Text` (Text.dfy): `String.prototype.trim` over the ECMA-262 WhiteSpace and
  LineTerminator code points. It is characterised by what it keeps and what
  it removes, and is shown to be unique and idempotent.
- `Tasks` (Tasks.dfy): the `Task` record and the three list transforms
  `Add` (spread-append), `Toggle` (a `map`) and `Delete` (a `filter`). They
  come with lemmas on the toggle round trip, on no-op ids, on order
  preservation and on the distinctness of ids.
- `Entry` (Entry.dfy): the input gate `handleAdd` as a pure function `Submit`
  on the pair (task list, field text). There are lemmas over one submission
  and over a series of submissions.
- `Components` (Components.dfy): the two stateful components as classes.
  `App` owns `tasks`, and `TaskInput` owns `text` and a reference to the app
  whose `addTask` it calls. Each method replaces its state by the value the
  pure functions give. A client method runs the add, toggle and delete
  lifecycle through both classes.

The id of a new task is `Date.now().toString()` in the app. Here it is a
`clock` parameter of `App.AddTask` and `TaskInput.HandleAdd`. Nothing in the
app makes ids unique: two adds in the same millisecond share an id, and
then toggle and delete act on both tasks. So uniqueness of ids is proved
only under a freshness precondition on the clock readings
(`Tasks.AddKeepsDistinct`, `Entry.SubmitAllKeepsDistinct`), and
`Tasks.AddReusedIdDuplicates` shows what happens without it.

A task list of this kind is meant to give every task a unique id, to let
toggle and delete act on the one task with that id, and to reject blank
titles inside the add operation itself. The code differs on each point,
and the model follows the code:

- Ids are clock readings, and the code does not make them unique.
- `toggleTask` and `deleteTask` use `map` and `filter`, which act on every
  task with the id (see `Tasks.ToggleFlipsEveryMatch`). When the ids are
  distinct and the id is present, delete removes only that task
  (`Tasks.DeleteUnique`) and toggle flips only that task (the ensures of
  `Tasks.Toggle`).
- `addTask` stores whatever title it is given. Trimming and the blank check
  live in the form's `handleAdd`, so `App.AddTask` has no guard and
  `TaskInput.HandleAdd` has it.

## Model

| member | source | states |
|---|---|---|
| `Text.TrimStart` | index.tsx:22 | the result is a suffix of the text; everything cut off is white space; the result does not start with white space |
| `Text.TrimEnd` | index.tsx:22 | the result is a prefix of the text; everything cut off is white space; the result does not end with white space |
| `Text.Trim` | index.tsx:22-23 | the trimmed text has no white space at either end, and it is empty exactly when the typed text is blank (empty or all white space), which is when `handleAdd` returns early |
| `Text.TrimSplits` | index.tsx:22 | the typed text is the trimmed text with blank text before and after it |
| `Text.TrimStartOfPadded` | index.tsx:22 | leading white space in front of text that starts with a non-space is exactly what is stripped |
| `Text.TrimEndOfPadded` | index.tsx:22 | trailing white space after text that ends with a non-space is exactly what is stripped |
| `Text.TrimOfPadded` | index.tsx:22 | any trimmed text surrounded by white space trims back to itself, so trim is determined by the text it keeps |
| `Text.TrimIdempotent` | index.tsx:22 | trimming an already trimmed title changes nothing |
| `Text.TrimBuyMilk` | index.tsx:22 | "  Buy milk  " trims to "Buy milk" |
| `Tasks.Add` | index.tsx:101-106 | the list grows by exactly one; every earlier task is unchanged in its place; the last task has the given id and title and is not done |
| `Tasks.Toggle` | index.tsx:108-114 | same length and order; every id and title is kept; `done` is negated on each task whose id matches and kept on every other task |
| `Tasks.Delete` | index.tsx:116-118 | no longer than before; no task with the id remains; a task is in the result exactly when it was in the list with a different id |
| `Tasks.KeptIndices` | index.tsx:117 | the positions the filter keeps: in range, strictly increasing, and a position is listed exactly when its task's id differs |
| `Tasks.DeleteIsOrderedFilter` | index.tsx:117 | delete returns exactly the tasks at the kept positions, in increasing order of position, i.e. the order-preserving subsequence of survivors |
| `Tasks.ToggleTwice` | index.tsx:111 | toggling the same id twice restores the list |
| `Tasks.ToggleAbsent` | index.tsx:110-111 | toggling an id no task has leaves the list unchanged |
| `Tasks.ToggleFlipsEveryMatch` | index.tsx:110-111 | two tasks sharing the id are both flipped, not only the first |
| `Tasks.DeleteAbsent` | index.tsx:117 | deleting an id no task has leaves the list unchanged |
| `Tasks.DeleteAppend` | index.tsx:117 | the filter of a concatenation is the concatenation of the filters |
| `Tasks.DeleteUnique` | index.tsx:117 | with distinct ids, deleting the id of one task yields the tasks before it followed by the tasks after it ([A, B, C] becomes [A, C]) |
| `Tasks.DeleteUniqueShrinksByOne` | index.tsx:117 | with distinct ids and the id present, the list shrinks by exactly one |
| `Tasks.AddKeepsDistinct` | index.tsx:102-105 | distinct ids stay distinct when the new id is fresh |
| `Tasks.AddReusedIdDuplicates` | index.tsx:104 | an id reused from the clock leaves two tasks with the same id |
| `Tasks.ToggleKeepsDistinct` | index.tsx:109-112 | toggle keeps distinct ids distinct |
| `Tasks.DeleteKeepsDistinct` | index.tsx:117 | delete keeps distinct ids distinct |
| `Entry.Submit` | index.tsx:21-26 | blank text: task list and field both unchanged; otherwise one task with the trimmed text, the clock id and `done` false is appended, all earlier tasks are kept, and the field becomes empty |
| `Entry.SubmitTitleIsTrimmed` | index.tsx:22-24 | the title that reaches `addTask` is non-empty, has no white space at either end and is its own trim |
| `Entry.SubmitKeepsTitlesValid` | index.tsx:22-24 | if every title is non-empty and trimmed, that stays so after a submission |
| `Entry.ToggleKeepsTitlesValid` | index.tsx:111 | toggle keeps every title non-empty and trimmed |
| `Entry.DeleteKeepsTitlesValid` | index.tsx:117 | delete keeps every title non-empty and trimmed |
| `Entry.SubmitAllLength` | index.tsx:21-26 | after a series of submissions the list has grown by the number of non-blank ones |
| `Entry.SubmitAllKeepsDistinct` | index.tsx:21-26 | ids stay distinct across a series of submissions when the clock readings of the non-blank ones are fresh and pairwise different |
| `Entry.SubmitAllKeepsTitlesValid` | index.tsx:21-26 | titles stay non-empty and trimmed across a series of submissions |
| `Entry.BlankSubmissionsIgnored` | index.tsx:22-23 | submitting "" or "   " changes neither the list nor the field |
| `Entry.SubmitBuyMilk` | index.tsx:21-26 | submitting "  Buy milk  " appends a not-done task titled "Buy milk" and clears the field |
| `Components.App.constructor` | index.tsx:99 | the app starts with an empty task list |
| `Components.App.AddTask` | index.tsx:101-106 | the new list is `Add` of the old one; distinct ids stay distinct when the clock id is fresh |
| `Components.App.ToggleTask` | index.tsx:108-114 | the new list is `Toggle` of the old one; distinctness is kept; an absent id changes nothing |
| `Components.App.DeleteTask` | index.tsx:116-118 | the new list is `Delete` of the old one; distinctness is kept; an absent id changes nothing; with distinct ids and the id present the list shrinks by one |
| `Components.TaskInput.constructor` | index.tsx:18-19 | the field starts empty and is bound to the app's add handler |
| `Components.TaskInput.ChangeText` | index.tsx:34-35 | editing the field sets its text |
| `Components.TaskInput.HandleAdd` | index.tsx:21-26 | blank text: the list and the field are untouched; otherwise the app's list is `Add` of the trimmed text under the clock id and the field is cleared; both together are `Submit` of the old pair |
| `Components.WashDishesSteps` | index.tsx:101-118 | the values one task passes through: "Wash dishes" is its own trim, adding it to the empty list gives one not-done task, toggling makes it done, deleting empties the list |
| `Components.WashDishesSession` | index.tsx:21-26 | typing "Wash dishes" and adding gives [Wash dishes, not done]; toggling gives it done; deleting leaves the list empty |

## Left out

- Rendering: `TaskItem`, `TaskList`, the `FlatList` with its `keyExtractor` and empty-list text, and the style sheet (index.tsx:28-96, 120-203). These are presentation only, except for the field's `onChangeText={setText}` binding (index.tsx:34-35), which `Components.TaskInput.ChangeText` models.
- React's `useState` scheduling and functional updaters. Each update is modelled as a direct replacement of the state. Batching of several updates in one event is not modelled.
- `Date.now()` (index.tsx:104) is a clock read. It is the `clock` parameter, and its text form is taken as given. No uniqueness is claimed without a freshness precondition.
- White space follows the Unicode "Zs" set as of recent Unicode versions. Engines built on older Unicode tables (for example those that still treat U+180E as a space) are not modelled.
- JavaScript strings are UTF-16 code units, while Dafny's `char` is a Unicode scalar value. Lone surrogates cannot be represented. Since no white space is a surrogate, trim is otherwise the same.
