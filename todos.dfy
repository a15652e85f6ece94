/**
 * The values the to-do controller works on and the pure computations it
 * performs over its list: the status filter, the list operations its
 * handlers apply when a request settles, the toggle-all policy and the
 * inline-edit commit decision.
 */
module Todos {
  import opened JsString

  /** The owner id every item created by this client carries. */
  const UserId: int := 837
  /** The id of the placeholder shown while a create request is outstanding. */
  const TempId: int := 0

  /** One to-do item, as the server stores it. */
  datatype Todo = Todo(id: int, userId: int, title: string, completed: bool)

  /** A create request: an item without an id (the server assigns it). */
  datatype NewTodo = NewTodo(userId: int, title: string, completed: bool)

  /** The list filter. */
  datatype Status = All | Active | Completed

  /** The single error slot; `Null` means no message is shown. */
  datatype Emessage = Null | Load | Title | Add | Delete | Update

  datatype Option<T> = None | Some(value: T)

  /** How a network request settled: resolved with a value, or rejected. */
  datatype Outcome<T> = Success(value: T) | Failure

  // ---------------------------------------------------------------------
  // Sequences

  /** `r` is `s` with some elements left out, the rest in their order. */
  predicate IsSubsequence<T(==)>(r: seq<T>, s: seq<T>) {
    if r == [] then true
    else if s == [] then false
    else (r[0] == s[0] && IsSubsequence(r[1..], s[1..])) || IsSubsequence(r, s[1..])
  }

  /** The ids of `s`, position by position. */
  function Ids(s: seq<Todo>): (r: seq<int>)
    ensures |r| == |s| && forall i :: 0 <= i < |s| ==> r[i] == s[i].id
  {
    seq(|s|, i requires 0 <= i < |s| => s[i].id)
  }

  /** No two items of `s` share an id. */
  predicate UniqueIds(s: seq<Todo>) {
    forall i, j :: 0 <= i < |s| && 0 <= j < |s| && i != j ==> s[i].id != s[j].id
  }

  // ---------------------------------------------------------------------
  // The status filter

  /** Whether the filter callback keeps `t` for status `q` (an item is truthy, so `All` keeps it). */
  predicate Matches(q: Status, t: Todo) {
    match q
    case Completed => t.completed
    case Active => !t.completed
    case All => true
  }

  /** `todosByStatus(q)`: the items the filter keeps, in list order. */
  function TodosByStatus(todos: seq<Todo>, q: Status): (r: seq<Todo>)
    ensures |r| <= |todos|
    ensures forall t :: t in r <==> t in todos && Matches(q, t)
  {
    if todos == [] then []
    else if Matches(q, todos[0]) then [todos[0]] + TodosByStatus(todos[1..], q)
    else TodosByStatus(todos[1..], q)
  }

  /** The filter keeps the order of the list: its result is a subsequence. */
  lemma {:induction false} TodosByStatusIsSubsequence(todos: seq<Todo>, q: Status)
    ensures IsSubsequence(TodosByStatus(todos, q), todos)
  {
    if todos != [] {
      TodosByStatusIsSubsequence(todos[1..], q);
      var r := TodosByStatus(todos, q);
      if !Matches(q, todos[0]) && r != [] {
        assert IsSubsequence(r, todos[1..]);
      }
    }
  }

  /** `All` is the identity. */
  lemma {:induction false} TodosByStatusAll(todos: seq<Todo>)
    ensures TodosByStatus(todos, All) == todos
  {
    if todos != [] {
      TodosByStatusAll(todos[1..]);
      assert todos == [todos[0]] + todos[1..];
    }
  }

  /**
   * `Active` and `Completed` partition the list: every item is in exactly
   * one of them, and together they hold the list's items with their
   * multiplicities.
   */
  lemma {:induction false} ActiveCompletedPartition(todos: seq<Todo>)
    ensures multiset(TodosByStatus(todos, Active)) + multiset(TodosByStatus(todos, Completed))
            == multiset(todos)
    ensures |TodosByStatus(todos, Active)| + |TodosByStatus(todos, Completed)| == |todos|
    ensures forall t :: t in todos ==>
              (t in TodosByStatus(todos, Active) <==> t !in TodosByStatus(todos, Completed))
  {
    if todos != [] {
      ActiveCompletedPartition(todos[1..]);
      assert todos == [todos[0]] + todos[1..];
    }
  }

  /** The filter keeps the whole list exactly when every item matches. */
  lemma {:induction false} TodosByStatusKeepsAll(todos: seq<Todo>, q: Status)
    ensures |TodosByStatus(todos, q)| == |todos| <==> forall i :: 0 <= i < |todos| ==> Matches(q, todos[i])
  {
    if todos != [] {
      TodosByStatusKeepsAll(todos[1..], q);
      if forall i :: 0 <= i < |todos| ==> Matches(q, todos[i]) {
        assert forall i :: 0 <= i < |todos| - 1 ==> Matches(q, todos[1..][i]) by {
          forall i | 0 <= i < |todos| - 1 ensures Matches(q, todos[1..][i]) {
            assert todos[1..][i] == todos[i + 1];
          }
        }
      } else if Matches(q, todos[0]) {
        var i :| 0 <= i < |todos| && !Matches(q, todos[i]);
        assert !Matches(q, todos[1..][i - 1]);
      }
    }
  }

  /** The filtered list of an id-unique list is id-unique. */
  lemma {:induction false} TodosByStatusUniqueIds(todos: seq<Todo>, q: Status)
    requires UniqueIds(todos)
    ensures UniqueIds(TodosByStatus(todos, q))
  {
    if todos != [] {
      var rest := todos[1..];
      assert UniqueIds(rest) by {
        forall i, j | 0 <= i < |rest| && 0 <= j < |rest| && i != j ensures rest[i].id != rest[j].id {
          assert rest[i] == todos[i + 1] && rest[j] == todos[j + 1];
        }
      }
      TodosByStatusUniqueIds(rest, q);
      if Matches(q, todos[0]) {
        var r := TodosByStatus(rest, q);
        forall t | t in r ensures t.id != todos[0].id {
          var k :| 0 <= k < |rest| && rest[k] == t;
          assert t == todos[k + 1];
        }
        ConsUniqueIds(todos[0], r);
      }
    }
  }

  /** Putting an item with a fresh id in front of an id-unique list keeps it id-unique. */
  lemma ConsUniqueIds(x: Todo, r: seq<Todo>)
    requires UniqueIds(r)
    requires forall t :: t in r ==> t.id != x.id
    ensures UniqueIds([x] + r)
  {
  }

  /** `hasCompletedTodos`: some item is completed. */
  predicate HasCompletedTodos(todos: seq<Todo>) {
    exists t :: t in todos && t.completed
  }

  /** Some item is completed exactly when the `Completed` filter is not empty. */
  lemma HasCompletedTodosIff(todos: seq<Todo>)
    ensures HasCompletedTodos(todos) <==> TodosByStatus(todos, Completed) != []
  {
  }

  /** The header's toggle button has the `active` class when the completed count equals the length. */
  predicate ToggleAllActive(todos: seq<Todo>) {
    |TodosByStatus(todos, Completed)| == |todos|
  }

  /** The toggle button has the `active` class exactly when every item is completed (vacuously on an empty list, where no button is rendered). */
  lemma ToggleAllActiveIff(todos: seq<Todo>)
    ensures ToggleAllActive(todos) <==> forall i :: 0 <= i < |todos| ==> todos[i].completed
  {
    TodosByStatusKeepsAll(todos, Completed);
  }

  // ---------------------------------------------------------------------
  // List operations applied when a request settles

  /**
   * The success branch of `updateTodo`: every item whose id is the server
   * copy's id becomes the server copy; every other position is left alone.
   */
  function ReplaceById(todos: seq<Todo>, server: Todo): (r: seq<Todo>)
    ensures |r| == |todos| && Ids(r) == Ids(todos)
    ensures forall i :: 0 <= i < |todos| && todos[i].id == server.id ==> r[i] == server
    ensures forall i :: 0 <= i < |todos| && todos[i].id != server.id ==> r[i] == todos[i]
  {
    seq(|todos|, i requires 0 <= i < |todos| => if todos[i].id == server.id then server else todos[i])
  }

  /** Replacing by an id the list does not hold changes nothing. */
  lemma ReplaceByIdAbsent(todos: seq<Todo>, server: Todo)
    requires server.id !in Ids(todos)
    ensures ReplaceById(todos, server) == todos
  {
  }

  /** A replacement keeps ids unique, and the server copy ends up in the list iff its id was there. */
  lemma ReplaceByIdKeepsUniqueIds(todos: seq<Todo>, server: Todo)
    requires UniqueIds(todos)
    ensures UniqueIds(ReplaceById(todos, server))
    ensures server in ReplaceById(todos, server) <==> server.id in Ids(todos)
  {
  }

  /**
   * The success branch of `deleteTodo`: the list without every item whose id
   * is `id`, the others in their order.
   */
  function RemoveById(todos: seq<Todo>, id: int): (r: seq<Todo>)
    ensures |r| <= |todos|
    ensures forall t :: t in r <==> t in todos && t.id != id
    ensures forall t :: multiset(r)[t] == if t.id == id then 0 else multiset(todos)[t]
  {
    if todos == [] then []
    else
      assert todos == [todos[0]] + todos[1..];
      if todos[0].id != id then [todos[0]] + RemoveById(todos[1..], id)
      else RemoveById(todos[1..], id)
  }

  /** A delete keeps the order of the items it leaves. */
  lemma {:induction false} RemoveByIdIsSubsequence(todos: seq<Todo>, id: int)
    ensures IsSubsequence(RemoveById(todos, id), todos)
  {
    if todos != [] {
      RemoveByIdIsSubsequence(todos[1..], id);
      var r := RemoveById(todos, id);
      if todos[0].id == id && r != [] {
        assert IsSubsequence(r, todos[1..]);
      }
    }
  }

  /**
   * On an id-unique list that holds `id`, a delete removes exactly one item;
   * on one that does not hold it, it removes nothing.
   */
  lemma {:induction false} RemoveByIdCount(todos: seq<Todo>, id: int)
    requires UniqueIds(todos)
    ensures id in Ids(todos) ==> |RemoveById(todos, id)| == |todos| - 1
    ensures id !in Ids(todos) ==> RemoveById(todos, id) == todos
  {
    if todos != [] {
      var rest := todos[1..];
      UniqueIdsTail(todos);
      RemoveByIdCount(rest, id);
      if todos[0].id != id {
        assert todos == [todos[0]] + rest;
      }
    }
  }

  /** A delete keeps ids unique. */
  lemma {:induction false} RemoveByIdKeepsUniqueIds(todos: seq<Todo>, id: int)
    requires UniqueIds(todos)
    ensures UniqueIds(RemoveById(todos, id))
  {
    if todos != [] {
      var rest := todos[1..];
      UniqueIdsTail(todos);
      RemoveByIdKeepsUniqueIds(rest, id);
      if todos[0].id != id {
        forall t | t in RemoveById(rest, id) ensures t.id != todos[0].id {
          var k :| 0 <= k < |rest| && rest[k] == t;
          assert Ids(rest)[k] == t.id;
        }
        ConsUniqueIds(todos[0], RemoveById(rest, id));
      }
    }
  }

  /** Appending an item whose id is not in an id-unique list (a create's result) keeps it id-unique. */
  lemma AppendKeepsUniqueIds(todos: seq<Todo>, t: Todo)
    requires UniqueIds(todos) && t.id !in Ids(todos)
    ensures UniqueIds(todos + [t])
  {
  }

  /** The tail of an id-unique list is id-unique and does not hold the head's id. */
  lemma UniqueIdsTail(todos: seq<Todo>)
    requires UniqueIds(todos) && todos != []
    ensures UniqueIds(todos[1..])
    ensures todos[0].id !in Ids(todos[1..])
    ensures forall x :: x in Ids(todos) <==> x == todos[0].id || x in Ids(todos[1..])
  {
  }

  /** `ids.filter(x => x !== id)`: the in-flight list without `id`. */
  function WithoutId(ids: seq<int>, id: int): (r: seq<int>)
    ensures |r| <= |ids|
    ensures forall x :: x in r <==> x in ids && x != id
  {
    if ids == [] then []
    else if ids[0] != id then [ids[0]] + WithoutId(ids[1..], id)
    else WithoutId(ids[1..], id)
  }

  /**
   * The list after the updates `servers` have all settled successfully, one
   * after another, each applied as `ReplaceById`.
   */
  function ApplyUpdates(todos: seq<Todo>, servers: seq<Todo>): seq<Todo>
  {
    if servers == [] then todos
    else ReplaceById(ApplyUpdates(todos, servers[..|servers| - 1]), servers[|servers| - 1])
  }

  /** The last item of `servers` with this id, if any. */
  function LastWithId(servers: seq<Todo>, id: int): Option<Todo>
  {
    if servers == [] then None
    else if servers[|servers| - 1].id == id then Some(servers[|servers| - 1])
    else LastWithId(servers[..|servers| - 1], id)
  }

  /**
   * After a series of successful updates, each position holds the last
   * server copy with its id (later updates win), or its old item if none had
   * its id; the ids and the length never change.
   */
  lemma {:induction false} ApplyUpdatesAt(todos: seq<Todo>, servers: seq<Todo>)
    ensures |ApplyUpdates(todos, servers)| == |todos|
    ensures Ids(ApplyUpdates(todos, servers)) == Ids(todos)
    ensures forall i :: 0 <= i < |todos| ==>
              ApplyUpdates(todos, servers)[i]
                == match LastWithId(servers, todos[i].id)
                   case Some(s) => s
                   case None => todos[i]
  {
    if servers != [] {
      var init := servers[..|servers| - 1];
      ApplyUpdatesAt(todos, init);
      var before := ApplyUpdates(todos, init);
      forall i | 0 <= i < |todos| ensures before[i].id == todos[i].id {
        assert Ids(before)[i] == Ids(todos)[i];
      }
    }
  }

  /** An item followed by no other item with its id is the last with that id. */
  lemma {:induction false} LastWithIdAt(servers: seq<Todo>, k: int)
    requires 0 <= k < |servers|
    requires forall j :: k < j < |servers| ==> servers[j].id != servers[k].id
    ensures LastWithId(servers, servers[k].id) == Some(servers[k])
  {
    if k < |servers| - 1 {
      var init := servers[..|servers| - 1];
      assert init[k] == servers[k];
      LastWithIdAt(init, k);
    }
  }

  /** No item of `servers` has the id: there is no last one. */
  lemma {:induction false} LastWithIdAbsent(servers: seq<Todo>, id: int)
    requires forall j :: 0 <= j < |servers| ==> servers[j].id != id
    ensures LastWithId(servers, id) == None
  {
    if servers != [] {
      LastWithIdAbsent(servers[..|servers| - 1], id);
    }
  }

  // ---------------------------------------------------------------------
  // The toggle-all policy

  /** Every item with its completion flipped (the uniform branch of `toggleAll`). */
  function FlipEach(s: seq<Todo>): (r: seq<Todo>)
    ensures |r| == |s| && Ids(r) == Ids(s)
  {
    seq(|s|, i requires 0 <= i < |s| => s[i].(completed := !s[i].completed))
  }

  /** Every item marked completed (the mixed branch of `toggleAll`). */
  function CompleteEach(s: seq<Todo>): (r: seq<Todo>)
    ensures |r| == |s| && Ids(r) == Ids(s)
  {
    seq(|s|, i requires 0 <= i < |s| => s[i].(completed := true))
  }

  /** Every item shares one completion state (all active or all completed; the empty list too). */
  predicate Uniform(todos: seq<Todo>) {
    forall i, j :: 0 <= i < |todos| && 0 <= j < |todos| ==> todos[i].completed == todos[j].completed
  }

  /** The updates `toggleAll` issues, in the order it issues them. */
  function ToggleAllPlan(todos: seq<Todo>): seq<Todo>
  {
    if |TodosByStatus(todos, Active)| == |todos| || |TodosByStatus(todos, Completed)| == |todos| then
      FlipEach(TodosByStatus(todos, All))
    else
      CompleteEach(TodosByStatus(todos, Active))
  }

  /**
   * The toggle-all policy: on a uniform list, one update per item with its
   * completion flipped, in list order; on a mixed list, one update per active
   * item, in order, marking it completed, and none for completed items.
   */
  lemma ToggleAllPlanPolicy(todos: seq<Todo>)
    ensures Uniform(todos) ==> ToggleAllPlan(todos) == FlipEach(todos)
    ensures !Uniform(todos) ==> ToggleAllPlan(todos) == CompleteEach(TodosByStatus(todos, Active))
    ensures !Uniform(todos) ==> forall u :: u in ToggleAllPlan(todos) ==>
              u.completed && u.(completed := false) in todos
  {
    TodosByStatusAll(todos);
    TodosByStatusKeepsAll(todos, Active);
    TodosByStatusKeepsAll(todos, Completed);
    if !Uniform(todos) {
      var plan := ToggleAllPlan(todos);
      var act := TodosByStatus(todos, Active);
      forall u | u in plan ensures u.completed && u.(completed := false) in todos {
        var k :| 0 <= k < |plan| && plan[k] == u;
        assert act[k] in act;
      }
    } else if todos != [] {
      if todos[0].completed {
        assert forall i :: 0 <= i < |todos| ==> Matches(Completed, todos[i]);
      } else {
        assert forall i :: 0 <= i < |todos| ==> Matches(Active, todos[i]);
      }
    }
  }

  /**
   * Once every update `toggleAll` issued on a uniform id-unique list has
   * settled successfully (the server returning the item it was sent), every
   * item is flipped.
   */
  lemma ToggleAllSettledUniform(todos: seq<Todo>)
    requires UniqueIds(todos) && Uniform(todos)
    ensures |ApplyUpdates(todos, ToggleAllPlan(todos))| == |todos|
    ensures forall i :: 0 <= i < |todos| ==>
              ApplyUpdates(todos, ToggleAllPlan(todos))[i] == todos[i].(completed := !todos[i].completed)
  {
    var plan := ToggleAllPlan(todos);
    ToggleAllPlanPolicy(todos);
    ApplyUpdatesAt(todos, plan);
    forall i | 0 <= i < |todos|
      ensures LastWithId(plan, todos[i].id) == Some(todos[i].(completed := !todos[i].completed))
    {
      assert forall j :: i < j < |plan| ==> plan[j].id == Ids(plan)[j] == Ids(todos)[j] == todos[j].id;
      LastWithIdAt(plan, i);
    }
  }

  /**
   * Once every update `toggleAll` issued on a mixed id-unique list has
   * settled successfully, every item is completed and the items that already
   * were are untouched.
   */
  lemma ToggleAllSettledMixed(todos: seq<Todo>)
    requires UniqueIds(todos) && !Uniform(todos)
    ensures |ApplyUpdates(todos, ToggleAllPlan(todos))| == |todos|
    ensures forall i :: 0 <= i < |todos| ==>
              ApplyUpdates(todos, ToggleAllPlan(todos))[i] == todos[i].(completed := true)
              && (todos[i].completed ==> ApplyUpdates(todos, ToggleAllPlan(todos))[i] == todos[i])
  {
    var plan := ToggleAllPlan(todos);
    ToggleAllPlanPolicy(todos);
    ApplyUpdatesAt(todos, plan);
    forall i | 0 <= i < |todos|
      ensures LastWithId(plan, todos[i].id)
              == if todos[i].completed then None else Some(todos[i].(completed := true))
    {
      MixedPlanLast(todos, i);
    }
  }

  /** In the mixed branch, the last update for an item's id marks it completed if it was active, and there is none if it was completed. */
  lemma MixedPlanLast(todos: seq<Todo>, i: int)
    requires UniqueIds(todos) && 0 <= i < |todos|
    ensures LastWithId(CompleteEach(TodosByStatus(todos, Active)), todos[i].id)
            == if todos[i].completed then None else Some(todos[i].(completed := true))
  {
    var act := TodosByStatus(todos, Active);
    var plan := CompleteEach(act);
    TodosByStatusUniqueIds(todos, Active);
    assert forall j :: 0 <= j < |plan| ==> plan[j].id == Ids(plan)[j] == Ids(act)[j] == act[j].id;
    if todos[i].completed {
      forall j | 0 <= j < |plan| ensures plan[j].id != todos[i].id {
        assert act[j] in act;
        var m :| 0 <= m < |todos| && todos[m] == act[j];
      }
      LastWithIdAbsent(plan, todos[i].id);
    } else {
      assert todos[i] in act;
      var k :| 0 <= k < |act| && act[k] == todos[i];
      LastWithIdAt(plan, k);
    }
  }

  // ---------------------------------------------------------------------
  // The inline-edit commit

  /** What committing an inline edit does. */
  datatype EditCommit =
    | NoSelection             // nothing is being edited: nothing happens
    | DeleteRequest(id: int)  // the title was blanked: delete the item
    | UpdateRequest(patched: Todo)  // the title changed: update the item
    | Discard                 // the title is unchanged: close the editor

  /** `handleTitle`'s decision from the selection and the edit field's text. */
  function DecideEdit(selected: Option<Todo>, newTitle: string): EditCommit
  {
    if selected.None? then NoSelection
    else
      var uiTitle := Trim(newTitle);
      if uiTitle == [] then DeleteRequest(selected.value.id)
      else if uiTitle != selected.value.title then UpdateRequest(selected.value.(title := uiTitle))
      else Discard
  }

  /**
   * The commit decision: nothing without a selection; a field of only white
   * space deletes the selected item; otherwise a trimmed title different from
   * the item's becomes one update that changes only the title (to a trimmed,
   * non-empty one), and the same title is discarded.
   */
  lemma DecideEditCases(selected: Option<Todo>, newTitle: string)
    ensures DecideEdit(selected, newTitle) == NoSelection <==> selected.None?
    ensures DecideEdit(selected, newTitle).DeleteRequest? <==> selected.Some? && AllWhitespace(newTitle)
    ensures DecideEdit(selected, newTitle).DeleteRequest? ==>
              DecideEdit(selected, newTitle).id == selected.value.id
    ensures DecideEdit(selected, newTitle).UpdateRequest? <==>
              selected.Some? && !AllWhitespace(newTitle) && Trim(newTitle) != selected.value.title
    ensures DecideEdit(selected, newTitle).UpdateRequest? ==>
              DecideEdit(selected, newTitle).patched == selected.value.(title := Trim(newTitle))
    ensures DecideEdit(selected, newTitle).UpdateRequest? ==>
              var p := DecideEdit(selected, newTitle).patched;
              p.id == selected.value.id && p.userId == selected.value.userId
              && p.completed == selected.value.completed && p.title != selected.value.title
              && p.title != [] && Trim(p.title) == p.title
    ensures DecideEdit(selected, newTitle) == Discard <==>
              selected.Some? && !AllWhitespace(newTitle) && Trim(newTitle) == selected.value.title
  {
    TrimEmptyIff(newTitle);
    TrimIdempotent(newTitle);
  }
}
