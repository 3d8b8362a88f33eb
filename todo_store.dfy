/**
 The list operations the handlers hand to `setTodos`: filtering out by id,
 replacing by id, and rewriting every `completed` flag. Each returns a new
 list and never changes a todo in place.
 */
module TodoStore {
  import opened Todos

  /** The todos whose id is not in `ids`, in list order (`filter(todo => todo.id !== id)` for a set of ids). */
  function Without(s: seq<Todo>, ids: set<int>): (r: seq<Todo>)
    ensures |r| <= |s|
    ensures forall t :: t in r ==> t in s && t.id !in ids
  {
    if s == [] then []
    else
      assert s == [s[0]] + s[1..];
      if s[0].id in ids then Without(s[1..], ids)
      else [s[0]] + Without(s[1..], ids)
  }

  /** Removing one todo by id: the `filter` of the delete handlers. */
  function RemoveById(s: seq<Todo>, id: int): (r: seq<Todo>)
    ensures forall t :: t in r ==> t.id != id
  {
    Without(s, {id})
  }

  /** The `map` of the update handler: every todo with id `id` becomes `v`. */
  function ReplaceById(s: seq<Todo>, id: int, v: Todo): (r: seq<Todo>)
    ensures |r| == |s|
    ensures forall i :: 0 <= i < |s| ==> r[i] == if s[i].id == id then v else s[i]
  {
    if s == [] then []
    else
      var rest := ReplaceById(s[1..], id, v);
      assert forall i :: 1 <= i < |s| ==> s[i] == s[1..][i - 1];
      [if s[0].id == id then v else s[0]] + rest
  }

  /** The `map` of the bulk toggle: every todo gets `completed == done`. */
  function SetAllCompleted(s: seq<Todo>, done: bool): (r: seq<Todo>)
    ensures |r| == |s|
    ensures forall i :: 0 <= i < |s| ==> r[i] == s[i].(completed := done)
    ensures forall t :: t in r ==> t.completed == done
  {
    if s == [] then []
    else
      var rest := SetAllCompleted(s[1..], done);
      assert forall i :: 1 <= i < |s| ==> s[i] == s[1..][i - 1];
      [if s[0].completed == done then s[0] else s[0].(completed := done)] + rest
  }

  /** A todo survives the removal exactly when it was in the list and its id is not removed. */
  lemma {:induction false} WithoutMembers(s: seq<Todo>, ids: set<int>)
    ensures forall t :: t in Without(s, ids) <==> t in s && t.id !in ids
  {
    if s != [] {
      WithoutMembers(s[1..], ids);
      assert s == [s[0]] + s[1..];
    }
  }

  /** The removal keeps every surviving todo with as many copies as it had. */
  lemma {:induction false} WithoutCounts(s: seq<Todo>, ids: set<int>)
    ensures forall t :: multiset(Without(s, ids))[t] == if t.id in ids then 0 else multiset(s)[t]
  {
    if s != [] {
      WithoutCounts(s[1..], ids);
      assert s == [s[0]] + s[1..];
    }
  }

  /** The removal keeps the remaining todos in their original order. */
  lemma {:induction false} WithoutIsSubsequence(s: seq<Todo>, ids: set<int>)
    ensures IsSubsequence(Without(s, ids), s)
  {
    if s != [] {
      WithoutIsSubsequence(s[1..], ids);
      var r := Without(s, ids);
      if s[0].id !in ids {
        assert r[0] == s[0] && r[1..] == Without(s[1..], ids);
      } else if r != [] {
        assert r[0] in r;
        assert r[0] != s[0];
      }
    }
  }

  /** Removing nothing keeps the list. */
  lemma {:induction false} WithoutNothing(s: seq<Todo>)
    ensures Without(s, {}) == s
  {
    if s != [] {
      WithoutNothing(s[1..]);
      assert s == [s[0]] + s[1..];
    }
  }

  /** Two removals in a row are one removal of both id sets (so their order does not matter). */
  lemma {:induction false} WithoutTwice(s: seq<Todo>, a: set<int>, b: set<int>)
    ensures Without(Without(s, a), b) == Without(s, a + b)
  {
    if s != [] {
      WithoutTwice(s[1..], a, b);
      if s[0].id !in a {
        var w := Without(s, a);
        assert w[0] == s[0] && w[1..] == Without(s[1..], a);
      }
    }
  }

  /**
   Deleting one todo: none with that id is left, every other todo is kept in
   order and with as many copies as before.
   */
  lemma RemoveByIdSpec(s: seq<Todo>, id: int)
    ensures forall t :: t in RemoveById(s, id) <==> t in s && t.id != id
    ensures forall t :: multiset(RemoveById(s, id))[t] == if t.id == id then 0 else multiset(s)[t]
    ensures IsSubsequence(RemoveById(s, id), s)
    ensures (forall t :: t in s ==> t.id != id) ==> RemoveById(s, id) == s
  {
    WithoutMembers(s, {id});
    WithoutCounts(s, {id});
    WithoutIsSubsequence(s, {id});
    if forall t :: t in s ==> t.id != id {
      WithoutUntouched(s, {id});
    }
  }

  lemma {:induction false} WithoutUntouched(s: seq<Todo>, ids: set<int>)
    requires forall t :: t in s ==> t.id !in ids
    ensures Without(s, ids) == s
  {
    if s != [] {
      assert s[0] in s;
      assert forall t :: t in s[1..] ==> t in s;
      WithoutUntouched(s[1..], ids);
      assert s == [s[0]] + s[1..];
    }
  }

  /** Applying the bulk toggle's map a second time changes nothing. */
  lemma SetAllCompletedIdempotent(s: seq<Todo>, done: bool)
    ensures SetAllCompleted(SetAllCompleted(s, done), done) == SetAllCompleted(s, done)
  {
  }

  /** A list whose todos all carry the flag is left as it is by the map. */
  lemma SetAllCompletedFixed(s: seq<Todo>, done: bool)
    requires forall t :: t in s ==> t.completed == done
    ensures SetAllCompleted(s, done) == s
  {
  }
}
