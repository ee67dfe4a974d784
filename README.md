# A verified model of the Pinia to-do store

This project models the to-do store of `src/stores/todos.ts`. The store is an in-memory container. It holds a display filter (`all`, `finished` or `unfinished`), an ordered list of `{id, label, finished}` records and an id counter `nextId`. Four getters read it: `findTodo`, `finishedTodos`, `unfinishedTodos` and `filteredTodos`. Two actions change it: `addTodo` and `toggleTodo`.

Everything is in `todos.dfy`, module `Todos`:

- `Todo`, `FilterType`, `Error`, `Result` and `Outcome` are datatypes. The record field `label` is called `text`, because `label` is a reserved word in Dafny.
- The array operations the getters use are functions over `seq<Todo>`:
  - `IndexOfId` plays `Array.prototype.find` by id.
  - `Select` plays `Array.prototype.filter` by the `finished` flag.
- The lemmas about these functions state what the views promise: their order, their membership and how they split the list.
- `TodoStore` is a class with the three state fields. The getters are `reads` functions. The actions are methods with `modifies` clauses.
- `Valid()` is the id invariant. Every id is below `nextId`, and the ids strictly increase along the list. `IncreasingIdsAreDistinct` turns this into "ids are unique".
- The constructor establishes `Valid()`, and every action preserves it. So any sequence of `addTodo` and `toggleTodo` calls from the initial state keeps the ids distinct and below `nextId`.
- `findTodo` throws `'todo not found'`. The model returns `Err(TodoNotFound)` instead. `toggleTodo` lets that exception propagate; the model returns `Fail(TodoNotFound)` and leaves the state unchanged.
- `ToggleTodo` does what the source does. It looks up the first record with the id, the same search `findTodo` makes, and negates that record's `finished` flag in place. The list is updated at that index.
- `Scenario`, `ScenarioViews` and `ScenarioMissingId` are client methods. They walk through two additions, a toggle, a filter change and a toggle of a missing id, using only the contracts.

## Model

| member | source | states |
|---|---|---|
| `Todos.TodoStore.constructor` | src/stores/todos.ts:14-20 | the initial state: filter `all`, no records, `nextId` 0; it satisfies the id invariant |
| `Todos.IncreasingIdsAreDistinct` | src/stores/todos.ts:18 | if ids increase between neighbours, they increase across the whole list, so no two records share an id |
| `Todos.IndexOfId` | src/stores/todos.ts:28 | the index returned holds a record with the id, and no earlier record has that id; the result is None exactly when no record has the id |
| `Todos.IndexOfIdOnlyReadsIds` | src/stores/todos.ts:28 | two lists with the same ids at the same positions give the same search result, whatever their labels and flags |
| `Todos.TodoStore.FindTodo` | src/stores/todos.ts:26-33 | fails with `TodoNotFound` exactly when no record has the id; otherwise returns the first record with that id |
| `Todos.Select` | src/stores/todos.ts:37 | the filtered list is no longer than the list, and every record in it has the wanted flag |
| `Todos.SelectMembers` | src/stores/todos.ts:37 | a record is in the filtered list exactly when it is in the list and has the wanted flag |
| `Todos.SelectIsOrderedSelection` | src/stores/todos.ts:36-43 | the filtered list is the records at the matching positions, in increasing position order: an order-preserving subsequence |
| `Todos.SelectPartitions` | src/stores/todos.ts:36-43 | the finished and unfinished views have lengths summing to the list's length, and their multisets add up to the list's multiset |
| `Todos.SelectDisjoint` | src/stores/todos.ts:36-43 | no record is in both the finished and the unfinished view |
| `Todos.SelectKeepsIdsIncreasing` | src/stores/todos.ts:36-43 | a view of a list with increasing ids also has increasing ids |
| `Todos.SelectAppend` | src/stores/todos.ts:37 | filtering a list with one more record at its end gives the old filtered list, plus that record if it has the wanted flag |
| `Todos.TodoStore.FinishedTodos` | src/stores/todos.ts:36-38 | holds exactly the finished records of the list |
| `Todos.TodoStore.UnfinishedTodos` | src/stores/todos.ts:41-43 | holds exactly the unfinished records of the list |
| `Todos.TodoStore.FilteredTodos` | src/stores/todos.ts:46-58 | holds exactly the records the current filter shows; it is the whole list under `all`, the finished view under `finished` and the unfinished view under `unfinished` |
| `Todos.TodoStore.SetFilter` | src/stores/todos.ts:16 | sets the filter and changes no other field |
| `Todos.TodoStore.AddTodo` | src/stores/todos.ts:63-65 | appends `{id: old nextId, label, finished: false}` after the unchanged earlier records, for any label; `nextId` goes up by one and the filter is unchanged; the new record joins the end of the unfinished view and the finished view is unchanged; the id invariant is preserved |
| `Todos.Toggled` | src/stores/todos.ts:68-71 | fails exactly when no record has the id; otherwise only the first matching record changes: its flag is negated and its id and label stay; every other record, the order and the length are unchanged |
| `Todos.TodoStore.ToggleTodo` | src/stores/todos.ts:68-71 | succeeds exactly when some record has the id, and the new list is `Toggled` of the old one; on failure the list is unchanged; the filter and `nextId` never change; the id invariant is preserved |
| `Todos.ToggledKeepsIds` | src/stores/todos.ts:69-70 | toggling keeps all ids below the counter and increasing along the list |
| `Todos.ToggleTwiceRestores` | src/stores/todos.ts:70 | toggling the same present id twice gives back the original list |

## Left out

- The framework wiring is not modelled: `defineStore`, the store key, reactivity, cached computed getters and getters reaching each other through `this`. The getters are plain functions; `FilteredTodos` calls `FinishedTodos` and `UnfinishedTodos` directly.
- The `default` branch of the filter switch handles values outside the three-way type. A datatype filter cannot reach it, so the model treats it as the `all` case.
- JavaScript `number` semantics are not modelled. Stored ids and `nextId` are unbounded naturals. A lookup id is an integer, so a negative id is simply not found. Fractional ids, NaN and the loss of precision above 2^53 are not modelled.
- The `Error` object and exception propagation are replaced by the result values `Err(TodoNotFound)` and `Fail(TodoNotFound)`.
- Aliasing is not modelled. `findTodo` returns a reference to the stored object, so a caller who changes that object changes the store. `FindTodo` returns a value instead.
- `SetFilter` has no counterpart in the source, which has no filter setter; the filter is assigned from outside through the raw state. The method stands for that assignment.
