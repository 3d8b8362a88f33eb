/**
 The visible list: the `filteredTodos` derivation of the app component, and
 the two counters the footer shows (active todos, completed todos).
 */
module FilterView {
  import opened Todos

  /** Does a todo show under the given status? */
  predicate Matches(t: Todo, status: Status)
  {
    match status
    case All => true
    case Active => !t.completed
    case Completed => t.completed
  }

  /** The todos whose `completed` flag equals `done`, in list order. */
  function Select(s: seq<Todo>, done: bool): (r: seq<Todo>)
    ensures |r| <= |s|
    ensures forall t :: t in r ==> t in s && t.completed == done
  {
    if s == [] then []
    else if s[0].completed == done then [s[0]] + Select(s[1..], done)
    else Select(s[1..], done)
  }

  /** The list shown for a status: the whole list for All, otherwise a filter on `completed`. */
  function Filtered(s: seq<Todo>, status: Status): (r: seq<Todo>)
    ensures |r| <= |s|
    ensures forall t :: t in r ==> t in s && Matches(t, status)
  {
    if status == All then s else Select(s, status == Completed)
  }

  /** Assumed definition of `getAllActiveTodos`: the number of todos not completed. */
  function ActiveCount(s: seq<Todo>): (n: nat)
    ensures n <= |s|
    ensures n == 0 <==> forall t :: t in s ==> t.completed
    ensures n == |s| <==> forall t :: t in s ==> !t.completed
  {
    if s == [] then 0
    else
      assert s == [s[0]] + s[1..];
      (if s[0].completed then 0 else 1) + ActiveCount(s[1..])
  }

  /** Assumed definition of `isAllTodosCompleted`: every todo is completed (true of the empty list). */
  predicate IsAllCompleted(s: seq<Todo>)
    ensures s == [] ==> IsAllCompleted(s)
    ensures IsAllCompleted(s) <==> ActiveCount(s) == 0
  {
    forall t :: t in s ==> t.completed
  }

  /** The `hasTodoCompleted` value passed to the footer: total minus active. */
  function HasTodoCompleted(s: seq<Todo>): (r: nat)
    ensures r <= |s|
    ensures r == 0 <==> forall t :: t in s ==> !t.completed
    ensures r == |s| <==> IsAllCompleted(s)
  {
    |s| - ActiveCount(s)
  }

  /** Every todo with the wanted flag survives the selection, and only those. */
  lemma {:induction false} SelectMembers(s: seq<Todo>, done: bool)
    ensures forall t :: t in Select(s, done) <==> t in s && t.completed == done
  {
    if s != [] {
      SelectMembers(s[1..], done);
      assert s == [s[0]] + s[1..];
    }
  }

  /** The selection keeps the order of the list. */
  lemma {:induction false} SelectIsSubsequence(s: seq<Todo>, done: bool)
    ensures IsSubsequence(Select(s, done), s)
  {
    if s != [] {
      SelectIsSubsequence(s[1..], done);
      var r := Select(s, done);
      if s[0].completed == done {
        assert r[0] == s[0] && r[1..] == Select(s[1..], done);
      } else if r != [] {
        assert r[0] in r;
        assert r[0] != s[0];
      }
    }
  }

  /** The selections for `true` and for `false` split the list between them. */
  lemma {:induction false} SelectPartition(s: seq<Todo>)
    ensures |Select(s, false)| == ActiveCount(s)
    ensures |Select(s, true)| + |Select(s, false)| == |s|
  {
    if s != [] {
      SelectPartition(s[1..]);
    }
  }

  /** Selecting again with the same flag changes nothing. */
  lemma {:induction false} SelectIdempotent(s: seq<Todo>, done: bool)
    ensures Select(Select(s, done), done) == Select(s, done)
  {
    if s != [] {
      SelectIdempotent(s[1..], done);
      if s[0].completed == done {
        var r := Select(s, done);
        assert r[0] == s[0] && r[1..] == Select(s[1..], done);
      }
    }
  }

  /** With every todo already carrying the flag, the selection is the whole list. */
  lemma {:induction false} SelectAll(s: seq<Todo>, done: bool)
    requires forall t :: t in s ==> t.completed == done
    ensures Select(s, done) == s
  {
    if s != [] {
      assert s[0] in s;
      assert forall t :: t in s[1..] ==> t in s;
      SelectAll(s[1..], done);
      assert s == [s[0]] + s[1..];
    }
  }

  /** Selection keeps ids unique. */
  lemma {:induction false} SelectUniqueIds(s: seq<Todo>, done: bool)
    requires UniqueIds(s)
    ensures UniqueIds(Select(s, done))
  {
    if s != [] {
      var tail := s[1..];
      assert UniqueIds(tail) by {
        forall i, j | 0 <= i < j < |tail| ensures tail[i].id != tail[j].id {
          assert s[i + 1].id != s[j + 1].id;
        }
      }
      SelectUniqueIds(tail, done);
      if s[0].completed == done {
        var rt := Select(tail, done);
        HeadIdNotInTail(s);
        var r := [s[0]] + rt;
        forall i, j | 0 <= i < j < |r| ensures r[i].id != r[j].id {
          assert r[j] == rt[j - 1] && rt[j - 1] in tail;
          if i > 0 {
            assert r[i] == rt[i - 1];
          }
        }
      }
    }
  }

  /** With unique ids, no todo after the first shares its id. */
  lemma HeadIdNotInTail(s: seq<Todo>)
    requires UniqueIds(s) && s != []
    ensures forall t :: t in s[1..] ==> t.id != s[0].id
  {
    forall t | t in s[1..] ensures t.id != s[0].id {
      var k :| 0 <= k < |s| - 1 && s[1..][k] == t;
      assert s[k + 1] == t;
    }
  }

  /**
   The filter view: All shows the list unchanged; Active and Completed show
   exactly the todos with that status, in list order.
   */
  lemma FilteredSpec(s: seq<Todo>, status: Status)
    ensures status == All ==> Filtered(s, status) == s
    ensures IsSubsequence(Filtered(s, status), s)
    ensures forall t :: t in Filtered(s, status) <==> t in s && Matches(t, status)
  {
    if status == All {
      assert IsSubsequence(s, s) by { SubsequenceReflexive(s); }
    } else {
      SelectIsSubsequence(s, status == Completed);
      SelectMembers(s, status == Completed);
    }
  }

  lemma {:induction false} SubsequenceReflexive(s: seq<Todo>)
    ensures IsSubsequence(s, s)
  {
    if s != [] {
      SubsequenceReflexive(s[1..]);
    }
  }

  /** Filtering the visible list again with the same status changes nothing. */
  lemma FilteredIdempotent(s: seq<Todo>, status: Status)
    ensures Filtered(Filtered(s, status), status) == Filtered(s, status)
  {
    if status != All {
      SelectIdempotent(s, status == Completed);
    }
  }

  /**
   The footer's counters: the active counter is the length of the Active view,
   `hasTodoCompleted` is the length of the Completed view, and the two add up
   to the length of the list.
   */
  lemma {:induction false} CountersMatchViews(s: seq<Todo>)
    ensures ActiveCount(s) == |Filtered(s, Active)|
    ensures HasTodoCompleted(s) == |Filtered(s, Completed)|
    ensures ActiveCount(s) + HasTodoCompleted(s) == |s|
  {
    SelectPartition(s);
  }

  /** All todos are completed exactly when the Active view is empty. */
  lemma AllCompletedIffNoActive(s: seq<Todo>)
    ensures IsAllCompleted(s) <==> Filtered(s, Active) == []
    ensures IsAllCompleted(s) ==> Filtered(s, Completed) == s
  {
    SelectMembers(s, false);
    if IsAllCompleted(s) {
      SelectAll(s, true);
      SelectPartition(s);
    } else {
      var t :| t in s && !t.completed;
      assert t in Filtered(s, Active);
    }
  }
}
