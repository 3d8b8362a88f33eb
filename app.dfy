/**
 The app component's state and its handlers. React, the network and the
 child components are stripped away: the state is the ordered list of todos,
 the filter status, the single-slot error message and the list of ids in
 flight, and every handler takes the outcome of its remote calls as a
 parameter. A batch handler settles its calls one after another, in the
 order it issued them.
 */
module TodoApp {
  import opened Todos
  import opened FilterView
  import opened TodoStore
  import opened Settlement

  class App {
    var todos: seq<Todo>
    var status: Status
    var errorMessage: Option<string>
    var processing: seq<int>

    /** The initial state of the component. */
    constructor ()
      ensures todos == [] && status == All && errorMessage == None && processing == []
    {
      todos := [];
      status := All;
      errorMessage := None;
      processing := [];
    }

    /** The `filteredTodos` memo: the list shown for the current status. */
    function Visible(): (r: seq<Todo>)
      reads this
      ensures status == All ==> r == todos
      ensures IsSubsequence(r, todos)
      ensures forall t :: t in r <==> t in todos && Matches(t, status)
    {
      FilteredSpec(todos, status);
      Filtered(todos, status)
    }

    /** The footer's filter links choose the status. */
    method SetStatus(s: Status)
      modifies this
      ensures status == s
      ensures todos == old(todos) && errorMessage == old(errorMessage) && processing == old(processing)
    {
      status := s;
    }

    /** `onAddTodo`: the created todo goes to the end of the list. */
    method AddTodo(todo: Todo)
      modifies this
      ensures todos == old(todos) + [todo]
      ensures |todos| == |old(todos)| + 1 && todos[..|old(todos)|] == old(todos)
      ensures status == old(status) && errorMessage == old(errorMessage) && processing == old(processing)
    {
      todos := todos + [todo];
    }

    /**
     `onDeleteTodo`: the id becomes the only one in flight; a successful DELETE
     filters the id out and empties the in-flight list, a failed one only
     publishes the error (the id stays in flight).
     */
    method DeleteTodo(id: int, deleted: bool)
      modifies this
      ensures deleted ==> todos == RemoveById(old(todos), id) && processing == []
                          && errorMessage == old(errorMessage)
      ensures !deleted ==> todos == old(todos) && processing == [id]
                           && errorMessage == Some(DELETE_ERROR)
      ensures status == old(status)
    {
      processing := [id];
      if deleted {
        todos := RemoveById(todos, id);
        processing := [];
      } else {
        errorMessage := Some(DELETE_ERROR);
      }
    }

    /** One id joins the in-flight list (`setProcessingTodos(prev => [...prev, id])`). */
    method MarkInFlight(id: int)
      modifies this
      ensures processing == old(processing) + [id]
      ensures todos == old(todos) && status == old(status) && errorMessage == old(errorMessage)
    {
      processing := processing + [id];
    }

    /** A batch handler issues its requests one by one, each id joining the in-flight list. */
    method MarkAllInFlight(ids: seq<int>)
      modifies this
      ensures processing == old(processing) + ids
      ensures todos == old(todos) && status == old(status) && errorMessage == old(errorMessage)
    {
      var i := 0;
      while i < |ids|
        invariant 0 <= i <= |ids|
        invariant processing == old(processing) + ids[..i]
        invariant todos == old(todos) && status == old(status) && errorMessage == old(errorMessage)
      {
        MarkInFlight(ids[i]);
        assert ids[..i + 1] == ids[..i] + [ids[i]];
        i := i + 1;
      }
      assert ids[..i] == ids;
    }

    /**
     The settling half of `onDeleteCompleted`: the DELETE requests settle in
     order; each success filters its id out, each failure publishes the error.
     */
    method SettleDeletes(ids: seq<int>, outcomes: seq<bool>)
      requires |outcomes| == |ids|
      modifies this
      ensures todos == Without(old(todos), SucceededIds(ids, outcomes, |outcomes|))
      ensures errorMessage == if AnyFailed(outcomes, |outcomes|) then Some(DELETE_ERROR) else old(errorMessage)
      ensures processing == old(processing) && status == old(status)
    {
      WithoutNothing(todos);
      assert SucceededIds(ids, outcomes, 0) == {};
      var i := 0;
      while i < |ids|
        invariant 0 <= i <= |ids|
        invariant todos == Without(old(todos), SucceededIds(ids, outcomes, i))
        invariant errorMessage == if AnyFailed(outcomes, i) then Some(DELETE_ERROR) else old(errorMessage)
        invariant processing == old(processing) && status == old(status)
      {
        SucceededIdsStep(ids, outcomes, i);
        if outcomes[i] {
          WithoutTwice(old(todos), SucceededIds(ids, outcomes, i), {ids[i]});
          assert RemoveById(todos, ids[i]) == Without(todos, {ids[i]});
          todos := RemoveById(todos, ids[i]);
          assert todos == Without(old(todos), SucceededIds(ids, outcomes, i + 1));
        } else {
          assert SucceededIds(ids, outcomes, i + 1) == SucceededIds(ids, outcomes, i);
          errorMessage := Some(DELETE_ERROR);
        }
        i := i + 1;
      }
    }

    /**
     `onDeleteCompleted`: one DELETE per todo completed at call time; each
     success filters its id out, each failure publishes the error; once all
     have settled the in-flight list is emptied.
     */
    method DeleteCompleted(outcomes: seq<bool>)
      requires |outcomes| == |Select(todos, true)|
      modifies this
      ensures todos == AfterDeleteCompleted(old(todos), outcomes)
      ensures processing == []
      ensures errorMessage == if AnyFailed(outcomes, |outcomes|) then Some(DELETE_ERROR) else old(errorMessage)
      ensures status == old(status)
    {
      var ids := CompletedIds(todos);
      MarkAllInFlight(ids);
      SettleDeletes(ids, outcomes);
      processing := [];
    }

    /**
     The settling half of `onTodoUpdate`: on success every todo whose id is
     the echoed id becomes the submitted todo; on failure the error is
     published and the call fails; either way the in-flight list is emptied.
     */
    method SettleUpdate(updated: Todo, outcome: UpdateOutcome) returns (ok: bool)
      modifies this
      ensures ok <==> outcome.Patched?
      ensures todos == if outcome.Patched? then ReplaceById(old(todos), outcome.echo.id, updated) else old(todos)
      ensures errorMessage == if outcome.Patched? then old(errorMessage) else Some(UPDATE_ERROR)
      ensures processing == [] && status == old(status)
    {
      match outcome {
        case Patched(echo) =>
          todos := ReplaceById(todos, echo.id, updated);
          ok := true;
        case Rejected =>
          errorMessage := Some(UPDATE_ERROR);
          ok := false;
      }
      processing := [];
    }

    /** `onTodoUpdate`: the submitted todo's id goes in flight, then the PATCH settles. */
    method TodoUpdate(updated: Todo, outcome: UpdateOutcome) returns (ok: bool)
      modifies this
      ensures ok <==> outcome.Patched?
      ensures todos == if outcome.Patched? then ReplaceById(old(todos), outcome.echo.id, updated) else old(todos)
      ensures errorMessage == if outcome.Patched? then old(errorMessage) else Some(UPDATE_ERROR)
      ensures processing == [] && status == old(status)
    {
      MarkInFlight(updated.id);
      ok := SettleUpdate(updated, outcome);
    }

    /**
     The issuing half of `onChangeTodoStatus`: each selected todo is submitted
     with `completed` set to `done`, and its id joins the in-flight list.
     */
    method IssueToggles(selected: seq<Todo>, done: bool) returns (requests: seq<Todo>)
      modifies this
      ensures |requests| == |selected|
      ensures forall i :: 0 <= i < |requests| ==> requests[i] == selected[i].(completed := done)
      ensures processing == old(processing) + Ids(requests)
      ensures todos == old(todos) && status == old(status) && errorMessage == old(errorMessage)
    {
      requests := [];
      var i := 0;
      while i < |selected|
        invariant 0 <= i <= |selected|
        invariant |requests| == i
        invariant forall k :: 0 <= k < i ==> requests[k] == selected[k].(completed := done)
        invariant processing == old(processing) + Ids(requests)
        invariant todos == old(todos) && status == old(status) && errorMessage == old(errorMessage)
      {
        var request := selected[i].(completed := done);
        MarkInFlight(request.id);
        assert Ids(requests + [request]) == Ids(requests) + [request.id];
        requests := requests + [request];
        i := i + 1;
      }
    }

    /**
     One settled PATCH of `onChangeTodoStatus`: the update settles, and on
     success the toggle's follow-up `map` sets every todo's flag to `done`.
     */
    method SettleToggle(request: Todo, outcome: UpdateOutcome, done: bool)
      modifies this
      ensures todos == ToggleStep(old(todos), request, outcome, done)
      ensures processing == []
      ensures errorMessage == if outcome.Rejected? then Some(UPDATE_ERROR) else old(errorMessage)
      ensures status == old(status)
    {
      var ok := SettleUpdate(request, outcome);
      if ok {
        todos := SetAllCompleted(todos, done);
      }
    }

    /**
     The settling half of `onChangeTodoStatus`: the updates settle in order;
     after each successful one every todo's flag is set to `done`.
     */
    method SettleToggles(requests: seq<Todo>, outcomes: seq<UpdateOutcome>, done: bool)
      requires |outcomes| == |requests|
      modifies this
      ensures todos == AfterToggles(old(todos), requests, outcomes, |outcomes|, done)
      ensures processing == if outcomes == [] then old(processing) else []
      ensures errorMessage == if AnyRejected(outcomes, |outcomes|) then Some(UPDATE_ERROR) else old(errorMessage)
      ensures status == old(status)
    {
      var i := 0;
      while i < |outcomes|
        invariant 0 <= i <= |outcomes|
        invariant todos == AfterToggles(old(todos), requests, outcomes, i, done)
        invariant processing == if i == 0 then old(processing) else []
        invariant errorMessage == if AnyRejected(outcomes, i) then Some(UPDATE_ERROR) else old(errorMessage)
        invariant status == old(status)
      {
        SettleToggle(requests[i], outcomes[i], done);
        i := i + 1;
      }
    }

    /**
     `onChangeTodoStatus`: one update per todo whose `completed` equals "all
     completed", each submitting that todo with the flag negated; after each
     successful update every todo's flag is set to the negation.
     */
    method ChangeTodoStatus(outcomes: seq<UpdateOutcome>) returns (requests: seq<Todo>)
      requires |outcomes| == |Select(todos, IsAllCompleted(todos))|
      modifies this
      ensures requests == ToggleRequests(old(todos))
      ensures todos == AfterToggles(old(todos), requests, outcomes, |outcomes|, !IsAllCompleted(old(todos)))
      ensures processing == if outcomes == [] then old(processing) else []
      ensures errorMessage == if AnyRejected(outcomes, |outcomes|) then Some(UPDATE_ERROR) else old(errorMessage)
      ensures status == old(status)
    {
      var allDone := IsAllCompleted(todos);
      var toToggle := Select(todos, allDone);
      requests := IssueToggles(toToggle, !allDone);
      SettleToggles(requests, outcomes, !allDone);
    }
  }
}
