# Task manager store, modelled in Dafny

A model of the core of a small browser-console to-do list (`script.js`): the
global id counter `taskIdCounter`, the `Task` constructor that draws ids from
it, and `TaskManager`, which holds the task list in memory and mirrors it to
`localStorage` after every successful change.

The project has two modules:

- `Tasks` (`tasks.dfy`) is the value level. It holds the `Task` record, the
  outcome of reading each persisted entry at startup (`InitialCounter`,
  `LoadTasks`), and `FindIndex`, the first-match lookup that `tasks.find(t =>
  t.id === id)` performs. It also holds `Without`, the `tasks.filter(t => t.id
  !== id)` that delete performs, and the lists toggle and update leave behind
  (`Toggled`, `Updated`). It states three invariants on identifiers: ids below
  the counter, ids unique, ids ascending. Lemmas prove that each operation
  preserves them, that toggling twice is the identity, that an update is undone
  by the old description, and that `filter` and `find` agree when ids are unique.
- `TaskStore` (`task_manager.dfy`) is the state. The class `TaskManager`
  holds four fields: the counter, the list, and the two persisted entries
  `storedCounter` and `storedTasks`. Each persisted entry holds the value a
  later `parseInt` or `JSON.parse` of it would yield. Its methods follow the
  JavaScript methods one for one. Each one's postcondition gives the whole new
  state in terms of the `Tasks` functions. It also says whether the record was
  found, that storage is written only on success, and that the id invariants
  are preserved. The predicate `Synced()` says that a restart from the two
  stored entries would rebuild the live list and counter; startup establishes
  it and every operation keeps it. Three client methods (`FirstRunScenario`,
  `DeleteScenario`, `RenameScenario`) replay a first session on empty storage:
  add "Buy milk", add "Walk dog", toggle 1, delete 2, toggle 2 (not found), and
  update 1. A last add then receives id 3, not the deleted 2.
  `RestartScenario` rebuilds a manager from what a session stored.

Behaviours of the code worth knowing:

- The counter at startup is `parseInt(stored) || 1`. A stored `0` or a
  non-number gives 1, but a stored negative number is kept. So ids are not
  always positive. From a stored `-1`, one add persists `0`, and a restart
  then reads 1 instead of 0; this is the one case `Synced()` exempts.
- Nothing at startup checks that the stored list's ids lie below the stored
  counter. If the `tasks` entry is present and the counter entry is not, the
  counter restarts at 1 and later adds can repeat ids. The model therefore
  states the id invariants as preserved by every operation
  (`old(IdsFresh()) ==> IdsFresh()`), not as guaranteed.
- Delete removes every record with the id (`filter`), while toggle and update
  change only the first one (`find`). `WithoutRemovesFound` proves that the two
  agree when ids are unique.

## Model

| member | source | states |
|---|---|---|
| `Tasks.IsWhitespace` | script.js:140 | the characters `trim` strips: the ECMAScript white-space and line-terminator characters |
| `Tasks.ValidDescription` | script.js:140-145 | a description that reaches the store is trimmed and not empty, so it has a character that is not white space |
| `Tasks.Trim` | script.js:140 | `trim` keeps the middle part of its input, cuts off only white space, and yields either nothing or a valid description |
| `Tasks.TrimmedDescriptions` | script.js:178-185 | the trimmed, non-empty input the prompts pass on is a valid description, and a valid description is exactly a non-empty string that trimming leaves alone |
| `Tasks.InitialCounter` | script.js:1 | the startup counter is the stored number when that is non-zero, else 1; it is never 0 |
| `Tasks.LoadTasks` | script.js:19-30 | the startup list is the stored list when the entry parses, and empty when it is missing, empty or unparsable |
| `Tasks.RestartRestores` | script.js:1-34 | reading back the entries written by `saveTaskIdCounter` and `saveTasks` restores the counter (unless it is 0) and the list |
| `Tasks.FindIndex` | script.js:57 | `find` yields the first record carrying the id; it yields nothing exactly when no record carries it |
| `Tasks.Without` | script.js:69 | `filter` keeps exactly the records whose id differs; none with the id is left; the list shrinks iff some record had the id; with no match the list is unchanged |
| `Tasks.WithoutConcat` | script.js:69 | filtering distributes over concatenation; with `Without`'s one-record behaviour this fixes that the kept records stay in their original order |
| `Tasks.WithoutRemovesFound` | script.js:67-69 | with unique ids, filtering removes exactly the record `find` returns, and leaves the records before and after it in order |
| `Tasks.Toggled` | script.js:57-59 | toggle keeps every id and description in place and flips `completed` on exactly the record `find` returns; with no match the list is unchanged |
| `Tasks.ToggleTwice` | script.js:56-60 | toggling the same id twice restores the original list |
| `Tasks.Updated` | script.js:79-81 | update keeps every id and `completed` flag in place and replaces the description of exactly the record `find` returns; with no match the list is unchanged |
| `Tasks.UpdateUndone` | script.js:78-82 | updating a found record back to its previous description restores the original list |
| `Tasks.UpdateIdempotent` | script.js:78-82 | updating twice with the same description equals updating once |
| `Tasks.AscendingIsUnique` | script.js:5 | ids that grow along the list are unique |
| `Tasks.AppendFresh` | script.js:4-9 | appending a record whose id is the counter, then incrementing the counter, keeps ids below the counter, unique and ascending |
| `Tasks.SameIdsKeepInvariants` | script.js:56-60 | changing records in place without touching their ids (toggle, update) keeps each id invariant |
| `Tasks.WithoutKeepsIdsBelow` | script.js:69 | after a delete every id is still below the counter |
| `Tasks.WithoutKeepsUnique` | script.js:69 | a delete keeps ids unique |
| `Tasks.WithoutKeepsAscending` | script.js:69 | a delete keeps ids ascending |
| `TaskStore.TaskManager.constructor` | script.js:15-30 | startup sets the counter and the list from the two stored entries and leaves the entries as they were, so a restart from them rebuilds the same state |
| `TaskStore.TaskManager.SaveTaskIdCounter` | script.js:11-13 | the stored counter becomes the in-memory counter |
| `TaskStore.TaskManager.SaveTasks` | script.js:32-34 | the stored list becomes the whole in-memory list |
| `TaskStore.TaskManager.NewTask` | script.js:4-9 | the new record has the counter's old value as id, the given description and `completed = false`; the counter goes up by exactly 1 and is persisted |
| `TaskStore.TaskManager.AddTask` | script.js:36-41 | exactly one record is appended at the end and earlier records are unchanged; the counter goes up by 1; both stored entries equal memory afterwards; when ids are fresh, the new id was not in the list; id invariants are preserved, and ids below the counter that ascend still ascend and are then fresh; if a restart from storage rebuilt the state before, it still does |
| `TaskStore.TaskManager.ListTasks` | script.js:43-54 | nothing is listed when the list is empty, otherwise the records in insertion order |
| `TaskStore.TaskManager.ToggleTask` | script.js:56-65 | found iff a record has the id; the list becomes `Toggled`; storage is overwritten with the list only when found and untouched otherwise; counter untouched; id invariants preserved; if a restart from storage rebuilt the state before, it still does |
| `TaskStore.TaskManager.DeleteTask` | script.js:67-76 | the list becomes `Without`; success iff the list shrank iff a record had the id; storage is written only on success; the counter is untouched, so when ids are fresh a deleted id stays below it and is never issued again; id invariants preserved; if a restart from storage rebuilt the state before, it still does |
| `TaskStore.TaskManager.UpdateTask` | script.js:78-87 | found iff a record has the id; the list becomes `Updated`; storage is overwritten with the list only when found and untouched otherwise; counter untouched; id invariants preserved; if a restart from storage rebuilt the state before, it still does |

## Left out

- The interactive menu (`mainMenu` and the four `...Prompt` functions, script.js:99-245) is I/O glue. Its only effect on the core is that descriptions reach `addTask` and `updateTask` trimmed and non-empty. That effect is the precondition `ValidDescription` on `AddTask` and `UpdateTask`. The id parsing with `parseInt`/`isNaN` there is not modelled; the methods take any integer id.
- Real `localStorage` is left out. Each entry is a field holding what a later read of it yields. The counter entry is `Option<int>` (`None` for absent or not a number). The list entry is `TasksEntry` (`Missing`, `Corrupt` or `Parsed`).
- `JSON.stringify` (with its 2-space indentation) and `JSON.parse` are left out. Saving a list stores it as `Parsed(list)`, so serialising a list of task records and parsing it back is taken to return the same list. A stored entry that parses to something other than a task list (such as `null` or a number) is not modelled.
- Console messages, including the corrupt-storage error and the `listTasks` display lines, are left out.
- The unused `mainMenuOptions` array (script.js:90-97) has no behaviour.
- Tasks are value records, not objects. `find` returns a reference that toggle and update write through. The model replaces the record at the found position instead. This is equivalent because every record is a separate object, made by `new Task` or by `JSON.parse`, so no record is shared.
- Storage writes are taken to succeed. `localStorage.setItem` (script.js:12, script.js:33) can throw, for example when storage is full, after the in-memory counter or list has already changed; the model does not capture that.
- TaskStore.TaskManager.NewTask: the counter is an unbounded integer. A JavaScript number loses integer precision above 2^53, and that is not captured.
