/**
 * The `TodoList` component as a state machine. Each field mirrors one
 * `useState` slot; each method is one event handler, run to completion and
 * followed, when it replaced the list, by the effect that recomputes the
 * completed count.
 */
module TodoListComponent {
  import opened JsString
  import opened TaskList

  /** The validation message shown under the edit field ("the data must not
      be empty"). */
  const NameRequired: string := "Dữ liệu không được để trống"

  class TodoList {
    var todo: seq<Task>
    var taskName: string
    var editMode: bool
    var currentTask: Option<Task>
    var deleteMode: bool
    var taskToDelete: Option<Task>
    var nameError: string
    var completedTasks: nat

    /** The state every handler starts from and leaves: the count agrees
        with the list, and each modal is open exactly when its task slot is
        filled. */
    ghost predicate Valid()
      reads this
    {
      completedTasks == CountCompleted(todo) &&
      (editMode <==> currentTask.Some?) &&
      (deleteMode <==> taskToDelete.Some?)
    }

    /** The initial `useState` values, and the effect's first run on mount. */
    constructor ()
      ensures Valid()
      ensures todo == [] && taskName == "" && nameError == "" && completedTasks == 0
      ensures !editMode && currentTask == None && !deleteMode && taskToDelete == None
    {
      todo, taskName := [], "";
      editMode, currentTask := false, None;
      deleteMode, taskToDelete := false, None;
      nameError, completedTasks := "", 0;
    }

    /** The effect that runs whenever `todo` is replaced: it stores the
        number of completed tasks. */
    method RecountCompleted()
      modifies this`completedTasks
      ensures completedTasks == CountCompleted(todo) && completedTasks <= |todo|
    {
      completedTasks := CountCompleted(todo);
    }

    /** The new-task input's `onChange`: the pending text becomes `text`. */
    method SetTaskName(text: string)
      requires Valid()
      modifies this`taskName
      ensures Valid() && taskName == text
    {
      taskName := text;
    }

    /** `addTask`, with `newId` standing for `Date.now()`. A pending text
        that trims to "" is ignored; otherwise an open task with the
        untrimmed text is appended and the input is cleared. */
    method AddTask(newId: int)
      requires Valid()
      modifies this`todo, this`taskName, this`completedTasks
      ensures Valid()
      ensures Trim(old(taskName)) != "" ==>
        todo == old(todo) + [Task(newId, old(taskName), false)] && taskName == ""
      ensures Trim(old(taskName)) == "" ==> todo == old(todo) && taskName == old(taskName)
      ensures completedTasks == old(completedTasks)
      ensures DistinctIds(old(todo)) && !HasId(old(todo), newId) ==> DistinctIds(todo)
    {
      if Trim(taskName) != "" {
        var newTask := Task(newId, taskName, false);
        AppendOpenCount(todo, newTask);
        todo := todo + [newTask];
        taskName := "";
        RecountCompleted();
      }
    }

    /** `handleStatusChange(id)`: flips `status` on every entry carrying
        `id`; ids, names, order and length stay as they were. */
    method HandleStatusChange(id: int)
      requires Valid()
      modifies this`todo, this`completedTasks
      ensures Valid()
      ensures todo == Toggle(old(todo), id)
      ensures !HasId(old(todo), id) ==> todo == old(todo)
      ensures DistinctIds(old(todo)) ==> DistinctIds(todo)
    {
      ToggleAbsent(todo, id);
      todo := Toggle(todo, id);
      RecountCompleted();
    }

    /** `handleEdit(task)`: opens the edit form on a copy of `task`. */
    method HandleEdit(task: Task)
      requires Valid()
      modifies this`editMode, this`currentTask
      ensures Valid() && editMode && currentTask == Some(task)
    {
      editMode := true;
      currentTask := Some(task);
    }

    /** `handleNameChange`: the copy's name becomes the edit field's text;
        its id and status stay. */
    method HandleNameChange(text: string)
      requires Valid() && editMode
      modifies this`currentTask
      ensures Valid() && currentTask == Some(old(currentTask).value.(name := text))
    {
      currentTask := Some(currentTask.value.(name := text));
    }

    /** `handleCancel`: closes the edit form and drops the copy; the
        validation message is left as it was. */
    method HandleCancel()
      requires Valid()
      modifies this`editMode, this`currentTask
      ensures Valid() && !editMode && currentTask == None
    {
      editMode := false;
      currentTask := None;
    }

    /** `handleUpdate`: a copy whose name trims to "" only sets the
        validation message; otherwise every entry carrying the copy's id is
        overwritten by the whole copy, the form closes and the message is
        cleared. */
    method HandleUpdate()
      requires Valid() && editMode
      modifies this`todo, this`editMode, this`currentTask, this`nameError, this`completedTasks
      ensures Valid()
      ensures Trim(old(currentTask).value.name) == "" ==>
        nameError == NameRequired && nameError != "" &&
        todo == old(todo) && editMode && currentTask == old(currentTask)
      ensures Trim(old(currentTask).value.name) != "" ==>
        todo == Replace(old(todo), old(currentTask).value) &&
        !editMode && currentTask == None && nameError == ""
      ensures DistinctIds(old(todo)) ==> DistinctIds(todo)
    {
      var current := currentTask.value;
      if Trim(current.name) == "" {
        nameError := NameRequired;
      } else {
        ReplaceKeepsIds(todo, current);
        todo := Replace(todo, current);
        editMode := false;
        currentTask := None;
        nameError := "";
        RecountCompleted();
      }
    }

    /** `handleDeleteRequest(task)`: opens the confirmation dialog for `task`. */
    method HandleDeleteRequest(task: Task)
      requires Valid()
      modifies this`deleteMode, this`taskToDelete
      ensures Valid() && deleteMode && taskToDelete == Some(task)
    {
      deleteMode := true;
      taskToDelete := Some(task);
    }

    /** `handleCancelDelete`: closes the dialog; the list is untouched. */
    method HandleCancelDelete()
      requires Valid()
      modifies this`deleteMode, this`taskToDelete
      ensures Valid() && !deleteMode && taskToDelete == None
    {
      deleteMode := false;
      taskToDelete := None;
    }

    /** `handleConfirmDelete`: every entry carrying the target's id is
        removed, the others keep their order, and the dialog closes. */
    method HandleConfirmDelete()
      requires Valid() && deleteMode
      modifies this`todo, this`deleteMode, this`taskToDelete, this`completedTasks
      ensures Valid() && !deleteMode && taskToDelete == None
      ensures todo == RemoveId(old(todo), old(taskToDelete).value.id)
      ensures DistinctIds(old(todo)) ==> DistinctIds(todo)
    {
      if DistinctIds(todo) {
        RemoveIdKeepsDistinct(todo, taskToDelete.value.id);
      }
      todo := RemoveId(todo, taskToDelete.value.id);
      RecountCompleted();
      deleteMode := false;
      taskToDelete := None;
    }

    /** The summary block under the list, from the stored count. */
    function Summary(): (s: TaskList.Summary)
      reads this
      requires Valid()
      ensures s == Hidden <==> todo == []
      ensures s == AllCompleted <==> todo != [] && forall i | 0 <= i < |todo| :: todo[i].status
      ensures s.CompletedCount? ==> s.count == completedTasks < |todo|
    {
      SummaryOfList(todo);
      SummaryOf(|todo|, completedTasks)
    }
  }

  /** A session: add "Buy milk" and complete it. */
  method SessionComplete(id: int)
  {
    var board := new TodoList();
    board.SetTaskName("Buy milk");
    assert "Buy milk"[0] == 'B' && !IsBlank("Buy milk");
    board.AddTask(id);
    assert board.todo == [Task(id, "Buy milk", false)] && board.taskName == "";
    board.HandleStatusChange(id);
    assert board.todo == [Task(id, "Buy milk", true)];
    assert board.completedTasks == 1 && board.Summary() == AllCompleted;
  }

  /** A session: add "Buy milk", try to commit a blank edit, cancel the
      edit (the message stays), then delete the task. */
  method SessionEditDelete(id: int)
  {
    var board := new TodoList();
    board.SetTaskName("Buy milk");
    assert "Buy milk"[0] == 'B' && !IsBlank("Buy milk");
    board.AddTask(id);
    board.HandleEdit(board.todo[0]);
    board.HandleNameChange(" ");
    assert IsBlank(" ");
    board.HandleUpdate();
    assert board.todo == [Task(id, "Buy milk", false)] && board.nameError != "" && board.editMode;
    board.HandleCancel();
    assert !board.editMode && board.nameError != "";
    board.HandleDeleteRequest(board.todo[0]);
    board.HandleConfirmDelete();
    assert board.todo == [] && board.completedTasks == 0 && board.Summary() == Hidden;
  }
}
