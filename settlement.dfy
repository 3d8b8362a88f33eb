/**
 What the batch handlers do to the list once their requests settle, one
 outcome after another in the order the requests were issued: "delete all
 completed" and the bulk toggle of the header's toggle-all button.
 */
module Settlement {
  import opened Todos
  import opened FilterView
  import opened TodoStore

  /** The ids of the completed todos, in list order: the DELETE requests of "delete all completed". */
  function CompletedIds(s: seq<Todo>): (r: seq<int>)
    ensures |r| == |Select(s, true)|
    ensures forall i :: 0 <= i < |r| ==> r[i] == Select(s, true)[i].id && Select(s, true)[i].completed
  {
    Ids(Select(s, true))
  }

  /** The ids among the first `n` requests whose DELETE succeeded. */
  function SucceededIds(ids: seq<int>, outcomes: seq<bool>, n: nat): (r: set<int>)
    requires n <= |ids| && n <= |outcomes|
  {
    set i | 0 <= i < n && outcomes[i] :: ids[i]
  }

  /** One more settled request adds its id to the succeeded ids exactly when it succeeded. */
  lemma SucceededIdsStep(ids: seq<int>, outcomes: seq<bool>, n: nat)
    requires n < |ids| && n < |outcomes|
    ensures SucceededIds(ids, outcomes, n + 1)
         == SucceededIds(ids, outcomes, n) + (if outcomes[n] then {ids[n]} else {})
  {
  }

  /** Did any of the first `n` DELETE requests fail? */
  predicate AnyFailed(outcomes: seq<bool>, n: nat)
    requires n <= |outcomes|
  {
    n > 0 && (!outcomes[n - 1] || AnyFailed(outcomes, n - 1))
  }

  /** `AnyFailed` holds exactly when some settled DELETE failed. */
  lemma {:induction false} AnyFailedSpec(outcomes: seq<bool>, n: nat)
    requires n <= |outcomes|
    ensures AnyFailed(outcomes, n) <==> exists k :: 0 <= k < n && !outcomes[k]
  {
    if n > 0 {
      AnyFailedSpec(outcomes, n - 1);
    }
  }

  /** The list once every DELETE of "delete all completed" has settled. */
  function AfterDeleteCompleted(s: seq<Todo>, outcomes: seq<bool>): (r: seq<Todo>)
    requires |outcomes| == |Select(s, true)|
    ensures |r| <= |s|
    ensures forall t :: t in r ==> t in s
    ensures (forall i :: 0 <= i < |outcomes| ==> !outcomes[i]) ==> r == s
  {
    var ok := SucceededIds(CompletedIds(s), outcomes, |outcomes|);
    WithoutNothing(s);
    assert (forall i :: 0 <= i < |outcomes| ==> !outcomes[i]) ==> ok == {};
    Without(s, ok)
  }

  /**
   Whatever the ids: the remaining todos keep their order, and no todo whose
   id had a successful DELETE is left.
   */
  lemma DeleteCompletedKeepsOrder(s: seq<Todo>, outcomes: seq<bool>)
    requires |outcomes| == |Select(s, true)|
    ensures IsSubsequence(AfterDeleteCompleted(s, outcomes), s)
    ensures forall i, t :: 0 <= i < |outcomes| && outcomes[i] && t in AfterDeleteCompleted(s, outcomes)
              ==> t.id != CompletedIds(s)[i]
  {
    var ok := SucceededIds(CompletedIds(s), outcomes, |outcomes|);
    WithoutIsSubsequence(s, ok);
    WithoutMembers(s, ok);
    forall i | 0 <= i < |outcomes| && outcomes[i] ensures CompletedIds(s)[i] in ok {
    }
  }

  /** With unique ids, only todos that were completed when the handler ran are ever removed. */
  lemma DeleteCompletedOnlyCompleted(s: seq<Todo>, outcomes: seq<bool>)
    requires UniqueIds(s)
    requires |outcomes| == |Select(s, true)|
    ensures forall t :: t in s && t !in AfterDeleteCompleted(s, outcomes) ==> t.completed
  {
    var sel := Select(s, true);
    var ok := SucceededIds(CompletedIds(s), outcomes, |outcomes|);
    WithoutMembers(s, ok);
    forall t | t in s && t !in AfterDeleteCompleted(s, outcomes) ensures t.completed {
      var i :| 0 <= i < |outcomes| && outcomes[i] && CompletedIds(s)[i] == t.id;
      assert sel[i] in sel;
      SameIdSameTodo(s, sel[i], t);
    }
  }

  /**
   With unique ids, the `i`-th completed todo is gone after the handler
   exactly when its own DELETE succeeded: a failed DELETE leaves it in place.
   */
  lemma DeleteCompletedOutcomeAt(s: seq<Todo>, outcomes: seq<bool>, i: nat)
    requires UniqueIds(s)
    requires |outcomes| == |Select(s, true)|
    requires i < |outcomes|
    ensures Select(s, true)[i] in s && Select(s, true)[i].completed
    ensures Select(s, true)[i] in AfterDeleteCompleted(s, outcomes) <==> !outcomes[i]
  {
    var sel := Select(s, true);
    var ids := CompletedIds(s);
    var ok := SucceededIds(ids, outcomes, |outcomes|);
    assert sel[i] in sel;
    WithoutMembers(s, ok);
    assert sel[i] in AfterDeleteCompleted(s, outcomes) <==> sel[i].id !in ok;
    if outcomes[i] {
      assert ids[i] in ok;
    } else {
      SelectUniqueIds(s, true);
    }
  }

  /** Was any of the first `n` PATCH requests rejected? */
  predicate AnyRejected(outcomes: seq<UpdateOutcome>, n: nat)
    requires n <= |outcomes|
  {
    n > 0 && (outcomes[n - 1].Rejected? || AnyRejected(outcomes, n - 1))
  }

  /** `AnyRejected` holds exactly when some settled PATCH was rejected. */
  lemma {:induction false} AnyRejectedSpec(outcomes: seq<UpdateOutcome>, n: nat)
    requires n <= |outcomes|
    ensures AnyRejected(outcomes, n) <==> exists k :: 0 <= k < n && outcomes[k].Rejected?
  {
    if n > 0 {
      AnyRejectedSpec(outcomes, n - 1);
    }
  }

  /** One settled PATCH of the bulk toggle: on success the update's `map`, then the toggle's own `map`. */
  function ToggleStep(s: seq<Todo>, request: Todo, outcome: UpdateOutcome, done: bool): (r: seq<Todo>)
    ensures |r| == |s|
    ensures outcome.Rejected? ==> r == s
    ensures outcome.Patched? ==> forall t :: t in r ==> t.completed == done
  {
    match outcome
    case Patched(echo) => SetAllCompleted(ReplaceById(s, echo.id, request), done)
    case Rejected => s
  }

  /** The list after the first `n` PATCH requests of the bulk toggle have settled, in order. */
  function AfterToggles(s: seq<Todo>, requests: seq<Todo>, outcomes: seq<UpdateOutcome>, n: nat, done: bool)
    : (r: seq<Todo>)
    requires n <= |requests| && n <= |outcomes|
    ensures |r| == |s|
  {
    if n == 0 then s
    else ToggleStep(AfterToggles(s, requests, outcomes, n - 1, done), requests[n - 1], outcomes[n - 1], done)
  }

  /**
   The bulk toggle keeps the length of the list; once any one PATCH has
   succeeded every todo carries the target flag; if none succeeded the list
   is unchanged.
   */
  lemma {:induction false} AfterTogglesSpec(s: seq<Todo>, requests: seq<Todo>, outcomes: seq<UpdateOutcome>,
                                            n: nat, done: bool)
    requires n <= |requests| && n <= |outcomes|
    ensures |AfterToggles(s, requests, outcomes, n, done)| == |s|
    ensures (exists k :: 0 <= k < n && outcomes[k].Patched?) ==>
              forall t :: t in AfterToggles(s, requests, outcomes, n, done) ==> t.completed == done
    ensures (forall k :: 0 <= k < n ==> outcomes[k].Rejected?) ==> AfterToggles(s, requests, outcomes, n, done) == s
  {
    if n > 0 {
      AfterTogglesSpec(s, requests, outcomes, n - 1, done);
    }
  }

  /**
   The bulk toggle keeps every field but `completed`: once any PATCH has
   succeeded, the list is the original list with every flag set to `done`.
   This holds when each successful PATCH echoes its request's id and each
   request is the todo of that id with the flag set to `done`.
   */
  lemma {:induction false} AfterTogglesKeepsFields(s: seq<Todo>, requests: seq<Todo>,
                                                   outcomes: seq<UpdateOutcome>, n: nat, done: bool)
    requires n <= |requests| && n <= |outcomes|
    requires forall k :: 0 <= k < n && outcomes[k].Patched? ==> outcomes[k].echo.id == requests[k].id
    requires forall k, j :: 0 <= k < n && 0 <= j < |s| && s[j].id == requests[k].id ==>
               requests[k] == s[j].(completed := done)
    ensures (exists k :: 0 <= k < n && outcomes[k].Patched?) ==>
              AfterToggles(s, requests, outcomes, n, done) == SetAllCompleted(s, done)
  {
    if n > 0 {
      AfterTogglesKeepsFields(s, requests, outcomes, n - 1, done);
      AfterTogglesSpec(s, requests, outcomes, n - 1, done);
      var prev := AfterToggles(s, requests, outcomes, n - 1, done);
      assert prev == s || prev == SetAllCompleted(s, done);
      if outcomes[n - 1].Patched? {
        ReplaceThenSetAll(s, prev, requests[n - 1], done);
      }
    }
  }

  /**
   One successful step of the bulk toggle, on a list that is the original
   or the original with every flag set: replacing the request's todo and
   setting every flag gives the original with every flag set.
   */
  lemma ReplaceThenSetAll(s: seq<Todo>, prev: seq<Todo>, request: Todo, done: bool)
    requires prev == s || prev == SetAllCompleted(s, done)
    requires forall j :: 0 <= j < |s| && s[j].id == request.id ==> request == s[j].(completed := done)
    ensures SetAllCompleted(ReplaceById(prev, request.id, request), done) == SetAllCompleted(s, done)
  {
    var mid := ReplaceById(prev, request.id, request);
    var r := SetAllCompleted(mid, done);
    var all := SetAllCompleted(s, done);
    forall j | 0 <= j < |s| ensures r[j] == all[j] {
      assert prev[j] == s[j] || prev[j] == s[j].(completed := done);
      assert prev[j].id == s[j].id;
      assert r[j] == mid[j].(completed := done);
      if prev[j].id == request.id {
        assert mid[j] == request == s[j].(completed := done);
      } else {
        assert mid[j] == prev[j];
      }
    }
  }

  /** The requests the bulk toggle sends: each selected todo with its flag negated. */
  function ToggleRequests(s: seq<Todo>): (r: seq<Todo>)
    ensures |r| == |Select(s, IsAllCompleted(s))|
    ensures forall i :: 0 <= i < |r| ==>
              r[i] == Select(s, IsAllCompleted(s))[i].(completed := !IsAllCompleted(s))
    ensures forall t :: t in r ==> t.completed == !IsAllCompleted(s)
  {
    SetAllCompleted(Select(s, IsAllCompleted(s)), !IsAllCompleted(s))
  }

  /**
   With unique ids and each successful PATCH echoing its request's id, the
   bulk toggle, once any PATCH has succeeded, leaves the original list with
   every flag negated and every other field kept.
   */
  lemma BulkToggleKeepsFields(s: seq<Todo>, outcomes: seq<UpdateOutcome>)
    requires UniqueIds(s)
    requires |outcomes| == |Select(s, IsAllCompleted(s))|
    requires forall k :: 0 <= k < |outcomes| && outcomes[k].Patched? ==>
               outcomes[k].echo.id == Select(s, IsAllCompleted(s))[k].id
    ensures (exists k :: 0 <= k < |outcomes| && outcomes[k].Patched?) ==>
              AfterToggles(s, ToggleRequests(s), outcomes, |outcomes|, !IsAllCompleted(s))
              == SetAllCompleted(s, !IsAllCompleted(s))
  {
    var done := !IsAllCompleted(s);
    var sel := Select(s, IsAllCompleted(s));
    var requests := ToggleRequests(s);
    forall k, j | 0 <= k < |outcomes| && 0 <= j < |s| && s[j].id == requests[k].id
      ensures requests[k] == s[j].(completed := done)
    {
      assert sel[k] in sel && s[j] in s;
      SameIdSameTodo(s, sel[k], s[j]);
    }
    AfterTogglesKeepsFields(s, requests, outcomes, |outcomes|, done);
  }

  /**
   What the bulk toggle selects: with every todo completed it selects them
   all, otherwise exactly the active ones; it selects nothing only for the
   empty list.
   */
  lemma ToggleSelection(s: seq<Todo>)
    ensures IsAllCompleted(s) ==> Select(s, IsAllCompleted(s)) == s
    ensures !IsAllCompleted(s) ==> Select(s, IsAllCompleted(s)) == Filtered(s, Active)
    ensures |Select(s, IsAllCompleted(s))| == if IsAllCompleted(s) then |s| else ActiveCount(s)
    ensures Select(s, IsAllCompleted(s)) == [] <==> s == []
  {
    SelectPartition(s);
    if IsAllCompleted(s) {
      SelectAll(s, true);
    } else {
      var t :| t in s && !t.completed;
      SelectMembers(s, false);
      assert t in Select(s, false);
    }
  }
}
