/**
 The entities the to-do client keeps in memory: a todo record, the filter
 status chosen in the footer, the single-slot error message, and the outcome
 of a PATCH request as the update handler sees it.
 */
module Todos {

  /** A todo record as the REST service returns it (src/types/Todo is not part of this model). */
  datatype Todo = Todo(id: int, title: string, completed: bool, userId: int)

  /** The three filter modes of the footer. */
  datatype Status = All | Active | Completed

  datatype Option<+T> = None | Some(value: T)

  /** The outcome of one PATCH request: the record the server echoes back, or a rejection. */
  datatype UpdateOutcome = Patched(echo: Todo) | Rejected

  const DELETE_ERROR: string := "Unable to delete a todo"
  const UPDATE_ERROR: string := "Unable to update a todo"

  /** No two todos of the list share an id (the server assigns ids). */
  predicate UniqueIds(s: seq<Todo>)
  {
    forall i, j :: 0 <= i < j < |s| ==> s[i].id != s[j].id
  }

  /** The ids of a list of todos, in list order. */
  function Ids(s: seq<Todo>): (r: seq<int>)
    ensures |r| == |s|
    ensures forall i :: 0 <= i < |s| ==> r[i] == s[i].id
  {
    if s == [] then [] else [s[0].id] + Ids(s[1..])
  }

  /**
   `a` is an order-preserving subsequence of `b`: `a` is obtained from `b` by
   dropping some elements. Decided greedily from the front.
   */
  predicate IsSubsequence(a: seq<Todo>, b: seq<Todo>)
    decreases |b|
  {
    if a == [] then true
    else if b == [] then false
    else if a[0] == b[0] then IsSubsequence(a[1..], b[1..])
    else IsSubsequence(a, b[1..])
  }

  /** With unique ids, two todos of the list that share an id are the same todo. */
  lemma SameIdSameTodo(s: seq<Todo>, t: Todo, u: Todo)
    requires UniqueIds(s)
    requires t in s && u in s && t.id == u.id
    ensures t == u
  {
  }
}
