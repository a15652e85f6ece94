/**
 * Short event sequences verified from the controller's contracts alone,
 * showing what a caller can conclude from them.
 */
module AppScenarios {
  import opened Todos
  import opened App
  import JsString

  /** Toggle-all on one active item issues one update completing it; its success stores the server copy. */
  method ToggleSingleActive() {
    var app := new TodoApp();
    var a := Todo(1, UserId, "a", false);
    app.LoadStart();
    app.LoadSettle(Success([a]));
    var issued := app.ToggleAll();
    assert TodosByStatus([a], Active) == [a];
    assert issued == [a.(completed := true)];
    assert app.updatingIds == [1] && app.IsBusy(1);
    app.UpdateSettle(Success(issued[0]));
    assert app.todos == [Todo(1, UserId, "a", true)];
    assert app.updatingIds == [];
  }

  /** A second error replaces the first in the single slot; the one pending dismissal then hides it. */
  method ErrorOverwrites() {
    var app := new TodoApp();
    app.LoadStart();
    app.LoadSettle(Failure);
    assert app.errMessage == Load && app.dismissalPending;
    var request := app.Submit();
    assert request.None? && app.errMessage == Title;
    app.DismissalFires();
    assert app.errMessage == Null && !app.dismissalPending;
  }

  /**
   * Two deletes outstanding: when the first settles the deleting ids are
   * emptied, so the second item loses its busy overlay while its own request
   * is still outstanding.
   */
  method OverlappingDeletes() {
    var app := new TodoApp();
    app.LoadSettle(Success([Todo(1, UserId, "a", false), Todo(2, UserId, "b", true)]));
    app.DeleteStart(1);
    app.DeleteStart(2);
    app.DeleteSettle(1, Success(()));
    assert app.todos == [Todo(2, UserId, "b", true)];
    assert !app.IsBusy(2);
  }

  /** A blank inline edit deletes the item. */
  method BlankEdit() {
    var app := new TodoApp();
    var a := Todo(7, UserId, "milk", false);
    app.DoubleClick(a);
    app.SetNewTitle("  ");
    var commit := app.HandleTitle();
    assert JsString.AllWhitespace("  ");
    DecideEditCases(Some(a), "  ");
    assert commit == DeleteRequest(7) && app.IsBusy(7);
  }
}
