/**
 * The `App` component's controller: its state fields and the handlers that
 * change them. Every network request is split in two events: a start method
 * (what the handler does before the request's promise settles) and a settle
 * method (the `.then` or `.catch` body followed by the `.finally` body),
 * which receives what the server answered as an `Outcome`.
 */
module App {
  import opened JsString
  import opened Todos

  /** Every field of the controller at one moment. */
  datatype AppState = AppState(
    todos: seq<Todo>,
    queryStatus: Status,
    isLoading: bool,
    errMessage: Emessage,
    dismissalPending: bool,
    tempTodo: Option<Todo>,
    inputText: string,
    deletedIds: seq<int>,
    inputDisabled: bool,
    updatingIds: seq<int>,
    selectedTodo: Option<Todo>,
    newTitle: string)

  /** The placeholder item shown for a create request: the request with the sentinel id. */
  function Placeholder(request: NewTodo): Todo {
    Todo(TempId, request.userId, request.title, request.completed)
  }

  class TodoApp {
    var todos: seq<Todo>
    var queryStatus: Status
    var isLoading: bool
    var errMessage: Emessage
    /** Whether an auto-dismiss timer for the error banner is scheduled and has not fired. */
    var dismissalPending: bool
    var tempTodo: Option<Todo>
    var inputText: string
    var deletedIds: seq<int>
    var inputDisabled: bool
    var updatingIds: seq<int>
    var selectedTodo: Option<Todo>
    var newTitle: string

    function State(): AppState
      reads this
    {
      AppState(todos, queryStatus, isLoading, errMessage, dismissalPending, tempTodo,
               inputText, deletedIds, inputDisabled, updatingIds, selectedTodo, newTitle)
    }

    /**
     * The composer input is disabled exactly while a placeholder is shown,
     * and a placeholder is an active item of this client with the sentinel
     * id and a non-empty title without white space at either end.
     */
    ghost predicate Valid()
      reads this
    {
      && inputDisabled == tempTodo.Some?
      && (tempTodo.Some? ==>
            var t := tempTodo.value;
            t.id == TempId && t.userId == UserId && !t.completed && IsTrimmedNonEmpty(t.title))
    }

    /** The initial values of the component's state. */
    constructor ()
      ensures Valid()
      ensures State() == AppState([], All, false, Null, false, None, "", [], false, [], None, "")
    {
      todos, queryStatus, isLoading := [], All, false;
      errMessage, dismissalPending := Null, false;
      tempTodo, inputText, deletedIds, inputDisabled := None, "", [], false;
      updatingIds, selectedTodo, newTitle := [], None, "";
    }

    /** Whether the item with this id is drawn with the busy overlay. */
    predicate IsBusy(id: int)
      reads this
    {
      id in updatingIds || id in deletedIds
    }

    // -------------------------------------------------------------------
    // The error banner

    /** `closingErrMessage`: hide the banner. */
    method CloseErrMessage()
      requires Valid()
      modifies this
      ensures Valid()
      ensures State() == old(State()).(errMessage := Null)
    {
      errMessage := Null;
    }

    /**
     * `handleErrMessage`: show `message` in the single slot, whatever was
     * there, and replace any scheduled dismissal by a new one.
     */
    method HandleErrMessage(message: Emessage)
      requires Valid()
      modifies this
      ensures Valid()
      ensures State() == old(State()).(errMessage := message, dismissalPending := true)
    {
      errMessage := message;
      dismissalPending := true;
    }

    /** The scheduled dismissal fires: the banner is hidden; without one nothing happens. */
    method DismissalFires()
      requires Valid()
      modifies this
      ensures Valid()
      ensures old(dismissalPending) ==> State() == old(State()).(errMessage := Null, dismissalPending := false)
      ensures !old(dismissalPending) ==> State() == old(State())
    {
      if dismissalPending {
        dismissalPending := false;
        CloseErrMessage();
      }
    }

    // -------------------------------------------------------------------
    // Initial load

    /** The mount effect before `getTodos` settles: the list is hidden while loading. */
    method LoadStart()
      requires Valid()
      modifies this
      ensures Valid()
      ensures State() == old(State()).(isLoading := true)
    {
      isLoading := true;
    }

    /** `getTodos` settles: the list becomes the server's, or the load error is shown. */
    method LoadSettle(result: Outcome<seq<Todo>>)
      requires Valid()
      modifies this
      ensures Valid()
      ensures result.Success? ==> State() == old(State()).(todos := result.value, isLoading := false)
      ensures result.Failure? ==>
                State() == old(State()).(errMessage := Load, dismissalPending := true, isLoading := false)
    {
      if result.Success? {
        todos := result.value;
      } else {
        HandleErrMessage(Load);
      }
      isLoading := false;
    }

    // -------------------------------------------------------------------
    // Plain setters passed to the views

    /** `onInputChange`: the composer text. */
    method InputChange(value: string)
      requires Valid()
      modifies this
      ensures Valid()
      ensures State() == old(State()).(inputText := value)
    {
      inputText := value;
    }

    /** `setQueryStatus`: the filter shown. */
    method SetQueryStatus(q: Status)
      requires Valid()
      modifies this
      ensures Valid()
      ensures State() == old(State()).(queryStatus := q)
    {
      queryStatus := q;
    }

    /** `setNewTitle`: the inline edit field's text. */
    method SetNewTitle(value: string)
      requires Valid()
      modifies this
      ensures Valid()
      ensures State() == old(State()).(newTitle := value)
    {
      newTitle := value;
    }

    // -------------------------------------------------------------------
    // Create

    /**
     * `addTodo` up to the request: the request carries this client's user id,
     * the trimmed composer text and `completed = false`; the composer is
     * disabled, the placeholder shown, and the in-flight ids become exactly
     * the sentinel's.
     */
    method AddStart() returns (request: NewTodo)
      requires Valid()
      requires Trim(inputText) != []
      modifies this
      ensures Valid()
      ensures request == NewTodo(UserId, Trim(old(inputText)), false)
      ensures State() == old(State()).(inputDisabled := true, tempTodo := Some(Placeholder(request)),
                                       updatingIds := [TempId])
      ensures forall x :: IsBusy(x) <==> x == TempId || x in deletedIds
    {
      var title := Trim(inputText);
      assert IsTrimmedNonEmpty(title);
      request := NewTodo(UserId, title, false);
      inputDisabled, tempTodo, updatingIds := true, Some(Placeholder(request)), [TempId];
    }

    /**
     * `submitHandler`: text of only white space shows the empty-title error
     * and sends nothing; any other text starts a create.
     */
    method Submit() returns (request: Option<NewTodo>)
      requires Valid()
      modifies this
      ensures Valid()
      ensures AllWhitespace(old(inputText)) ==>
                request.None? && State() == old(State()).(errMessage := Title, dismissalPending := true)
      ensures !AllWhitespace(old(inputText)) ==>
                && request == Some(NewTodo(UserId, Trim(old(inputText)), false))
                && State() == old(State()).(inputDisabled := true, tempTodo := Some(Placeholder(request.value)),
                                            updatingIds := [TempId])
    {
      TrimEmptyIff(inputText);
      if Trim(inputText) == [] {
        HandleErrMessage(Title);
        request := None;
        return;
      }
      var r := AddStart();
      request := Some(r);
    }

    /**
     * The create request settles. Success appends the server's item at the
     * end, empties the composer and takes the sentinel out of the in-flight
     * ids; failure shows the add error. Either way the placeholder goes and
     * the composer is enabled again.
     */
    method AddSettle(result: Outcome<Todo>)
      requires Valid()
      modifies this
      ensures Valid()
      ensures result.Success? ==>
                State() == old(State()).(todos := old(todos) + [result.value], tempTodo := None,
                                         updatingIds := WithoutId(old(updatingIds), TempId),
                                         inputText := "", inputDisabled := false)
      ensures result.Failure? ==>
                State() == old(State()).(errMessage := Add, dismissalPending := true,
                                         tempTodo := None, inputDisabled := false)
    {
      match result {
        case Success(todoFromServer) =>
          todos := todos + [todoFromServer];
          tempTodo := None;
          updatingIds := WithoutId(updatingIds, TempId);
          inputText := "";
        case Failure =>
          HandleErrMessage(Add);
      }
      tempTodo := None;
      inputDisabled := false;
    }

    // -------------------------------------------------------------------
    // Delete

    /** `deleteTodo` up to the request: the id joins the deleting ids, so its item shows busy. */
    method DeleteStart(id: int)
      requires Valid()
      modifies this
      ensures Valid()
      ensures State() == old(State()).(deletedIds := old(deletedIds) + [id])
      ensures IsBusy(id)
    {
      deletedIds := deletedIds + [id];
    }

    /**
     * The delete request for `id` settles. Success removes every item with
     * that id and closes any inline edit; failure shows the delete error.
     * Either way no id is marked deleting any more, so the only items left
     * busy are those with an update outstanding, whatever other deletes are.
     */
    method DeleteSettle(id: int, result: Outcome<()>)
      requires Valid()
      modifies this
      ensures Valid()
      ensures result.Success? ==>
                State() == old(State()).(todos := RemoveById(old(todos), id), selectedTodo := None, deletedIds := [])
      ensures result.Failure? ==>
                State() == old(State()).(errMessage := Delete, dismissalPending := true, deletedIds := [])
      ensures forall x :: IsBusy(x) <==> x in updatingIds
    {
      if result.Success? {
        todos := RemoveById(todos, id);
        selectedTodo := None;
      } else {
        HandleErrMessage(Delete);
      }
      deletedIds := [];
    }

    // -------------------------------------------------------------------
    // Update

    /** `updateTodo` up to the request: the item's id joins the updating ids. */
    method UpdateStart(patched: Todo)
      requires Valid()
      modifies this
      ensures Valid()
      ensures State() == old(State()).(updatingIds := old(updatingIds) + [patched.id])
      ensures IsBusy(patched.id)
    {
      updatingIds := updatingIds + [patched.id];
    }

    /**
     * An update request settles. Success replaces every item with the
     * server copy's id by that copy and closes any inline edit; failure shows
     * the update error. Either way no id is marked updating any more, so
     * the only items left busy are those with a delete outstanding.
     */
    method UpdateSettle(result: Outcome<Todo>)
      requires Valid()
      modifies this
      ensures Valid()
      ensures result.Success? ==>
                State() == old(State()).(todos := ReplaceById(old(todos), result.value), selectedTodo := None,
                                         updatingIds := [])
      ensures result.Failure? ==>
                State() == old(State()).(errMessage := Update, dismissalPending := true, updatingIds := [])
      ensures forall x :: IsBusy(x) <==> x in deletedIds
    {
      match result {
        case Success(serverTodo) =>
          todos := ReplaceById(todos, serverTodo);
          selectedTodo := None;
        case Failure =>
          HandleErrMessage(Update);
      }
      updatingIds := [];
    }

    /**
     * `toggleAll`: starts the updates of `ToggleAllPlan`, one after another
     * in list order, each adding its id to the updating ids.
     */
    method ToggleAll() returns (issued: seq<Todo>)
      requires Valid()
      modifies this
      ensures Valid()
      ensures issued == ToggleAllPlan(old(todos))
      ensures State() == old(State()).(updatingIds := old(updatingIds) + Ids(issued))
    {
      var active := |TodosByStatus(todos, Active)|;
      var complete := |TodosByStatus(todos, Completed)|;
      var allTodos := TodosByStatus(todos, All);
      if active == |todos| || complete == |todos| {
        issued := UpdateEachFlipped(allTodos);
      } else {
        issued := UpdateEachCompleted(TodosByStatus(todos, Active));
      }
    }

    /** The uniform branch's `forEach`: one update per item with its completion flipped. */
    method UpdateEachFlipped(batch: seq<Todo>) returns (issued: seq<Todo>)
      requires Valid()
      modifies this
      ensures Valid()
      ensures issued == FlipEach(batch)
      ensures State() == old(State()).(updatingIds := old(updatingIds) + Ids(issued))
    {
      ghost var s0 := State();
      issued := [];
      for i := 0 to |batch|
        invariant Valid()
        invariant issued == FlipEach(batch[..i])
        invariant State() == s0.(updatingIds := s0.updatingIds + Ids(issued))
      {
        var patched := batch[i].(completed := !batch[i].completed);
        UpdateStart(patched);
        assert FlipEach(batch[..i + 1]) == issued + [patched];
        assert Ids(issued + [patched]) == Ids(issued) + [patched.id];
        issued := issued + [patched];
      }
      assert batch[..|batch|] == batch;
    }

    /** The mixed branch's `forEach`: one update per item marking it completed. */
    method UpdateEachCompleted(batch: seq<Todo>) returns (issued: seq<Todo>)
      requires Valid()
      modifies this
      ensures Valid()
      ensures issued == CompleteEach(batch)
      ensures State() == old(State()).(updatingIds := old(updatingIds) + Ids(issued))
    {
      ghost var s0 := State();
      issued := [];
      for i := 0 to |batch|
        invariant Valid()
        invariant issued == CompleteEach(batch[..i])
        invariant State() == s0.(updatingIds := s0.updatingIds + Ids(issued))
      {
        var patched := batch[i].(completed := true);
        UpdateStart(patched);
        assert CompleteEach(batch[..i + 1]) == issued + [patched];
        assert Ids(issued + [patched]) == Ids(issued) + [patched.id];
        issued := issued + [patched];
      }
      assert batch[..|batch|] == batch;
    }

    // -------------------------------------------------------------------
    // Inline edit

    /** `doubleClick`: open the item for editing, the field holding its title. */
    method DoubleClick(todo: Todo)
      requires Valid()
      modifies this
      ensures Valid()
      ensures State() == old(State()).(selectedTodo := Some(todo), newTitle := todo.title)
    {
      selectedTodo := Some(todo);
      newTitle := todo.title;
    }

    /**
     * `handleTitle`: commits the inline edit as `DecideEdit` says: a blank
     * title starts a delete of the selected item, a changed one starts its
     * update with the trimmed title, an unchanged one closes the editor.
     */
    method HandleTitle() returns (commit: EditCommit)
      requires Valid()
      modifies this
      ensures Valid()
      ensures commit == DecideEdit(old(selectedTodo), old(newTitle))
      ensures commit == NoSelection ==> State() == old(State())
      ensures commit.DeleteRequest? ==> State() == old(State()).(deletedIds := old(deletedIds) + [commit.id])
      ensures commit.UpdateRequest? ==>
                State() == old(State()).(updatingIds := old(updatingIds) + [commit.patched.id])
      ensures commit == Discard ==> State() == old(State()).(selectedTodo := None)
    {
      if selectedTodo.None? {
        return NoSelection;
      }
      var selected := selectedTodo.value;
      var uiTitle := Trim(newTitle);
      if uiTitle == [] {
        DeleteStart(selected.id);
        commit := DeleteRequest(selected.id);
      } else if uiTitle != selected.title {
        var patched := selected.(title := uiTitle);
        UpdateStart(patched);
        commit := UpdateRequest(patched);
      } else {
        selectedTodo := None;
        commit := Discard;
      }
    }

    /** `escapeKeyHandler`: Escape while an item is being edited closes the editor. */
    method EscapeKey(key: string)
      requires Valid()
      modifies this
      ensures Valid()
      ensures key == "Escape" && old(selectedTodo).Some? ==> State() == old(State()).(selectedTodo := None)
      ensures !(key == "Escape" && old(selectedTodo).Some?) ==> State() == old(State())
    {
      if key == "Escape" && selectedTodo.Some? {
        selectedTodo := None;
      }
    }
  }
}
