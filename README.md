# To-do client: state transitions of the app component

This project models the state logic of a small to-do list client written in
React. Its app component keeps an ordered list of todos, the filter status
chosen in the footer, a single-slot error message and a list of todo ids
whose requests are in flight. Its handlers change that state when the
REST service answers.

In the model, React and the network are gone. The component becomes the
class `TodoApp.App`, with fields `todos`, `status`, `errorMessage` and
`processing`. Each handler is a method that takes the outcome of its remote
calls as parameters:

- a `bool` per DELETE;
- an `UpdateOutcome` per PATCH: the record the server echoes back, or `Rejected`.

The two batch handlers issue every request first, then let the requests
settle one by one in the order they were issued. Their effect on the list is
given by the pure folds in `Settlement`. The list operations the handlers pass
to `setTodos` live in `TodoStore`: filter out by id, replace by id, and set
every `completed` flag. The visible list and the footer counters live in
`FilterView`.

Files:

- `todos.dfy`: the entities, the error messages, unique ids, subsequence.
- `filter_view.dfy`: the `filteredTodos` memo and the footer counters.
- `todo_store.dfy`: the list operations.
- `settlement.dfy`: what the batch handlers leave behind, and its properties.
- `app.dfy`: the component as a class, one method per handler.

Two helpers come from `src/utils/finder`, which is not part of this model.
Their definitions here are assumed, not taken from the source:

- `isAllTodosCompleted` is `FilterView.IsAllCompleted`: every todo is completed, which is true of the empty list.
- `getAllActiveTodos` is `FilterView.ActiveCount`: the number of todos not completed.

The model follows the code, including where a reader would expect different behaviour:

- A failed single delete publishes the error but does not clear the in-flight
  list. The id stays in flight (`App.DeleteTodo`).
- A settled update empties the whole in-flight list, not only its own id
  (`App.SettleUpdate`).
- "Delete all completed" appends its ids to whatever is already in flight.
  Only after everything has settled does it empty the list.
- After each successful PATCH, the bulk toggle sets the flag of every todo in
  the list, not only the todo it sent. Once one PATCH succeeds, a todo whose
  own PATCH failed still ends up toggled (`Settlement.AfterTogglesSpec`,
  `Settlement.BulkToggleKeepsFields`).
- Removals and replacements match by id. So the properties of "delete all
  completed" about which todos remain are proved for lists with unique ids
  (`Todos.UniqueIds`). With duplicate ids, a successful delete also removes
  an active todo that shares the id.

## Model

| member | source | states |
|---|---|---|
| `TodoApp.App.constructor` | src/App.tsx:13-17 | The component starts with no todos, status All, no error and nothing in flight. |
| `TodoApp.App.Visible` | src/App.tsx:30-38 | The visible list is the whole list under All. Otherwise it is the order-preserving subsequence of exactly the todos matching the status. |
| `TodoApp.App.SetStatus` | src/App.tsx:14 | Choosing a filter changes the status only. |
| `FilterView.Select` | src/App.tsx:102-104 | The todos whose flag equals the given value, in list order, and no longer than the list. `SelectMembers` gives exact membership and `SelectIsSubsequence` the order. It also models the filters at src/App.tsx:35-37 and src/App.tsx:64-65. |
| `FilterView.SelectMembers` | src/App.tsx:35-37 | A todo is selected exactly when it is in the list and its flag equals the given value. |
| `FilterView.SelectIsSubsequence` | src/App.tsx:35-37 | The selection keeps the todos in their list order. |
| `FilterView.Filtered` | src/App.tsx:30-38 | The visible list is no longer than the list. Every todo in it is in the list and matches the status. |
| `FilterView.FilteredSpec` | src/App.tsx:30-38 | All gives the list unchanged. Every status gives a subsequence of the list in list order. A todo shows exactly when it is in the list and matches the status. |
| `FilterView.FilteredIdempotent` | src/App.tsx:35-37 | Filtering the visible list again with the same status changes nothing. |
| `FilterView.SelectPartition` | src/App.tsx:35-37 | The completed and active selections add up to the whole list, and the active one has `ActiveCount` todos. |
| `FilterView.ActiveCount` | src/App.tsx:22 | `totalTodosActive` is at most the list length. It is zero exactly when every todo is completed and the full length exactly when none is. |
| `FilterView.IsAllCompleted` | src/App.tsx:21 | "All completed" holds for the empty list, and holds exactly when the active count is zero. |
| `FilterView.HasTodoCompleted` | src/App.tsx:151 | `hasTodoCompleted` lies between zero and the list length. It is zero exactly when no todo is completed and the full length exactly when all are. |
| `FilterView.CountersMatchViews` | src/App.tsx:150-151 | `totalTodosActive` is the length of the Active view. `hasTodoCompleted` (total minus active) is the length of the Completed view. The two sum to the list length. |
| `FilterView.AllCompletedIffNoActive` | src/App.tsx:21 | "All completed" holds exactly when the Active view is empty. In that case the Completed view is the whole list. |
| `TodoApp.App.AddTodo` | src/App.tsx:44-46 | The new todo is appended at the end. The length grows by one and every earlier todo is unchanged. Nothing else changes. |
| `TodoApp.App.DeleteTodo` | src/App.tsx:48-60 | On success, the todos with that id are filtered out and nothing is left in flight. On failure, the list is unchanged, the id stays the only one in flight and the error is "Unable to delete a todo". |
| `TodoStore.RemoveById` | src/App.tsx:53 | No todo of the result has the removed id. |
| `TodoStore.RemoveByIdSpec` | src/App.tsx:53 | After removing by id, a todo is present exactly when it was present and has another id. Every other todo keeps its number of copies and its original order. An absent id leaves the list as it is. |
| `TodoStore.Without` | src/App.tsx:72 | The removal of a set of ids never lengthens the list. It keeps only todos of the list whose id is not removed. |
| `TodoStore.WithoutCounts` | src/App.tsx:72 | A removal drops every copy of a todo with a removed id and keeps every copy of every other todo. |
| `TodoStore.WithoutMembers` | src/App.tsx:72 | A todo survives a removal exactly when it was in the list and its id was not removed. |
| `TodoStore.WithoutIsSubsequence` | src/App.tsx:72 | A removal keeps the remaining todos in their original order. |
| `TodoStore.WithoutTwice` | src/App.tsx:70-73 | Two removals in a row equal one removal of both ids, so the order in which deletes settle does not change the list. |
| `TodoApp.App.MarkInFlight` | src/App.tsx:67 | The id is appended to the in-flight list. Nothing else changes. |
| `TodoApp.App.MarkAllInFlight` | src/App.tsx:64-67 | Issuing a batch appends all of its ids to the in-flight list, in order. |
| `TodoApp.App.SettleDeletes` | src/App.tsx:69-75 | After the DELETEs settle, exactly the ids whose DELETE succeeded are filtered out. Any failure sets the delete error; with none, the error is unchanged. |
| `TodoApp.App.DeleteCompleted` | src/App.tsx:62-81 | One DELETE is issued per todo completed at call time. The list becomes `AfterDeleteCompleted`. Any failure publishes the delete error. Once all have settled, nothing is in flight. |
| `Settlement.CompletedIds` | src/App.tsx:64-66 | "Delete all completed" issues one id per completed todo, in list order: the id of each todo of the Completed selection. |
| `Settlement.AfterDeleteCompleted` | src/App.tsx:69-75 | After the DELETEs settle, the list is no longer, holds only todos it held before, and is unchanged if every DELETE failed. |
| `Settlement.AnyFailedSpec` | src/App.tsx:75 | The delete error is published exactly when some DELETE of the batch failed. |
| `Settlement.SucceededIdsStep` | src/App.tsx:69-75 | One more settled DELETE adds its id to the removed ids exactly when it succeeded. |
| `Settlement.DeleteCompletedKeepsOrder` | src/App.tsx:63-76 | The remaining todos keep their order. No todo whose id had a successful DELETE remains. |
| `Settlement.DeleteCompletedOnlyCompleted` | src/App.tsx:64-65 | With unique ids, only todos that were completed at call time are ever removed. |
| `Settlement.DeleteCompletedOutcomeAt` | src/App.tsx:69-75 | With unique ids, each completed todo is gone exactly when its own DELETE succeeded. A failed DELETE leaves it present. |
| `TodoApp.App.SettleUpdate` | src/App.tsx:86-98 | On success, every todo with the echoed id becomes the submitted todo. On failure, the list is unchanged, the error is "Unable to update a todo" and the call reports failure. Either way, nothing is left in flight. |
| `TodoApp.App.TodoUpdate` | src/App.tsx:83-99 | The update handler as a whole: the id goes in flight, then the outcome is settled as in `SettleUpdate`. |
| `TodoStore.ReplaceById` | src/App.tsx:89-91 | Replacing by id keeps the length. Each todo with the id becomes the submitted value and every other todo is untouched. |
| `TodoApp.App.IssueToggles` | src/App.tsx:106-109 | One request per selected todo, in order: that todo with `completed` set to the target. Their ids join the in-flight list. |
| `TodoApp.App.SettleToggles` | src/App.tsx:110-117 | The PATCHes settle in order. After each success, every todo's flag is set to the target. Any failure sets the update error. Once at least one has settled, nothing is in flight. |
| `TodoApp.App.ChangeTodoStatus` | src/App.tsx:101-120 | The bulk toggle sends one update per todo whose `completed` equals "all completed", each with the flag negated. The list becomes `AfterToggles` of those requests. |
| `Settlement.ToggleSelection` | src/App.tsx:102-104 | The bulk toggle selects every todo when all are completed, otherwise exactly the active ones. It selects none only for the empty list. |
| `Settlement.ToggleRequests` | src/App.tsx:102-109 | The bulk toggle sends one request per selected todo, in order: that todo with its flag negated. |
| `Settlement.ToggleStep` | src/App.tsx:110-117 | One settled PATCH keeps the list length. A rejection leaves the list unchanged. A success leaves every todo with the target flag. |
| `Settlement.AfterToggles` | src/App.tsx:106-118 | The bulk toggle, settled in order, keeps the length of the list. |
| `Settlement.AnyRejectedSpec` | src/App.tsx:94-95 | The update error is published exactly when some PATCH of the batch was rejected. |
| `TodoApp.App.SettleToggle` | src/App.tsx:107-117 | One settled PATCH of the bulk toggle: the update settles as in `SettleUpdate`, then a success sets every flag to the target. A rejection publishes the update error. |
| `Settlement.AfterTogglesSpec` | src/App.tsx:106-118 | The bulk toggle keeps the length of the list. After any one success, every todo carries the target flag. If none succeeds, the list is unchanged. |
| `TodoStore.SetAllCompleted` | src/App.tsx:112-116 | The toggle's map keeps the length and, position by position, every field except `completed`, which becomes the target. |
| `Settlement.AfterTogglesKeepsFields` | src/App.tsx:106-118 | Suppose each successful PATCH echoes its request's id, and each request is the todo of that id with the target flag. Then once any PATCH succeeds, the list is the original list with every flag set to the target. Ids, titles and owners are kept. |
| `Settlement.ReplaceThenSetAll` | src/App.tsx:110-117 | A successful step, on the original list or on the list with every flag set, leaves the original list with every flag set. |
| `Settlement.BulkToggleKeepsFields` | src/App.tsx:101-120 | Suppose ids are unique and each successful PATCH echoes its request's id. Then after the bulk toggle with at least one success, the list is the original list with every flag negated, order and other fields kept. |
| `TodoStore.SetAllCompletedIdempotent` | src/App.tsx:111-117 | Applying the toggle's map twice gives the same list as applying it once. |
| `TodoStore.SetAllCompletedFixed` | src/App.tsx:113-114 | A list whose todos all carry the target flag is left unchanged by the map. |

## Left out

- The initial load (src/App.tsx:24-28): a network fetch whose only logic is "replace the list or publish the load error".
- The request wrappers in src/api/todos.ts: they only build URLs and bodies. The fetch client they call is not part of this model.
- Rendering and child components: the `USER_ID` guard, the header, the list, the footer and the error notification. The placeholder todo (`tempTodo`), the add-time errors and dismissing the error are all handled there.
- Moving focus back to the title field (src/App.tsx:58, src/App.tsx:78): a UI side effect.
- Promise scheduling. The model settles requests one at a time, in the order issued, and runs each promise chain to completion before the next. Real settlement can interleave the steps of different chains. For "delete all completed", `TodoStore.WithoutTwice` shows the order of removals does not matter.
- TodoApp.App.ChangeTodoStatus: a failed PATCH is reported as an error, and its re-raised rejection just skips the toggle's follow-up map. The rejection is left unhandled in the source; the model does not represent an unhandled rejection.
- `isAllTodosCompleted` and `getAllActiveTodos` have assumed definitions (see above), because src/utils/finder is not part of this model.
- Todo ids are unbounded integers. JavaScript numbers are not modelled.
- Settlement.BulkToggleKeepsFields and Settlement.AfterTogglesKeepsFields: they assume that each successful PATCH echoes the id it was sent. The REST service is not part of this model; with a different echoed id, the update handler would replace another todo.
