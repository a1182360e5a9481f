/**
 * The home screen: the state it holds (`todos`, `modalVisible`,
 * `isEditModalVisible`, `editingTodo`), the handlers that overwrite it, the
 * save effect's guard, and the wiring of the two dialogs it renders.
 */
module Home {
  import opened Wrappers
  import opened Text
  import opened Tasks
  import AddDialog
  import EditDialog

  class HomeScreen {
    var todos: seq<Task>
    var modalVisible: bool
    var isEditModalVisible: bool
    /** The task staged for editing, passed to the edit dialog as its `initialTask`. */
    var editingTodo: Option<Task>
    /** The lists the save effect hands to storage, oldest first. */
    ghost var saves: seq<seq<Task>>

    /** The two dialogs the screen renders. */
    const addModal: AddDialog.AddTaskModal
    const editModal: EditDialog.EditTaskModal

    /** The edit dialog's last `initialTask` prop is the staged task. */
    ghost predicate Valid()
      reads this, editModal
    {
      editModal.initialTask == editingTodo
    }

    /** The first render: an empty list, both dialogs hidden, nothing staged, nothing saved. */
    constructor ()
      ensures Valid()
      ensures todos == [] && !modalVisible && !isEditModalVisible && editingTodo == None
      ensures saves == []
      ensures fresh(addModal) && addModal.taskText == ""
      ensures fresh(editModal) && editModal.taskText == ""
    {
      todos := [];
      modalVisible := false;
      isEditModalVisible := false;
      editingTodo := None;
      saves := [];
      addModal := new AddDialog.AddTaskModal();
      editModal := new EditDialog.EditTaskModal(None);
    }

    /** `setTodos` followed by the save effect, which writes the new list only when it is non-empty. */
    method SetTodos(next: seq<Task>)
      modifies this`todos, this`saves
      ensures todos == next
      ensures saves == old(saves) + (if ShouldPersist(next) then [next] else [])
    {
      todos := next;
      if ShouldPersist(next) {
        saves := saves + [next];
      }
    }

    /** Prepends a new incomplete task with the given id; the text is taken as it is. */
    method HandleAddTask(id: string, text: string)
      modifies this`todos, this`saves
      ensures todos == AddTask(old(todos), id, text)
      ensures saves == old(saves) + [todos]
    {
      SetTodos(AddTask(todos, id, text));
    }

    /** Flips `completed` on the entries with that id. */
    method HandleToggleTodo(id: string)
      modifies this`todos, this`saves
      ensures todos == ToggleTodo(old(todos), id)
      ensures saves == old(saves) + (if old(todos) != [] then [todos] else [])
    {
      SetTodos(ToggleTodo(todos, id));
    }

    /** Removes the entries with that id; removing the last one writes nothing. */
    method HandleDeleteTodo(id: string)
      modifies this`todos, this`saves
      ensures todos == DeleteTodo(old(todos), id)
      ensures saves == old(saves) + (if Ids(old(todos)) <= {id} then [] else [todos])
    {
      PersistAfterDelete(todos, id);
      SetTodos(DeleteTodo(todos, id));
    }

    /** Stages a task and shows the edit dialog, whose buffer is seeded from it. */
    method HandleOpenEditModal(todo: Task)
      requires Valid()
      modifies this`editingTodo, this`isEditModalVisible, editModal
      ensures Valid()
      ensures editingTodo == Some(todo) && isEditModalVisible
      ensures Some(todo) != old(editingTodo) ==> editModal.taskText == todo.text
      ensures Some(todo) == old(editingTodo) ==> editModal.taskText == old(editModal.taskText)
    {
      editingTodo := Some(todo);
      isEditModalVisible := true;
      editModal.Render(editingTodo);
    }

    /** Replaces the text of the entries with that id, hides the edit dialog and clears the staged task. */
    method HandleSaveTask(id: string, newText: string)
      requires Valid()
      modifies this`todos, this`saves, this`isEditModalVisible, this`editingTodo, editModal
      ensures Valid()
      ensures todos == EditTodo(old(todos), id, newText)
      ensures saves == old(saves) + (if old(todos) != [] then [todos] else [])
      ensures !isEditModalVisible && editingTodo == None
      ensures editModal.taskText == old(editModal.taskText)
    {
      SetTodos(EditTodo(todos, id, newText));
      isEditModalVisible := false;
      editingTodo := None;
      editModal.Render(editingTodo);
    }

    /** The add button shows the add dialog. */
    method OpenAddModal()
      modifies this`modalVisible
      ensures modalVisible
    {
      modalVisible := true;
    }

    /** The add dialog's `onClose`. */
    method CloseAddModal()
      modifies this`modalVisible
      ensures !modalVisible
    {
      modalVisible := false;
    }

    /** The edit dialog's `onClose`: hides it and clears the staged task; the buffer stays. */
    method CloseEditModal()
      requires Valid()
      modifies this`isEditModalVisible, this`editingTodo, editModal
      ensures Valid()
      ensures !isEditModalVisible && editingTodo == None
      ensures editModal.taskText == old(editModal.taskText)
    {
      isEditModalVisible := false;
      editingTodo := None;
      editModal.Render(editingTodo);
    }

    /**
     * The add dialog's "Add Task" button delivered to this screen, with `id` the
     * id the clock would give. A blank buffer changes nothing; otherwise the
     * untrimmed text is prepended, saved, the buffer cleared and the dialog hidden.
     */
    method SubmitAddModal(id: string)
      modifies this`todos, this`saves, this`modalVisible, addModal
      ensures IsBlank(old(addModal.taskText)) ==>
        && todos == old(todos) && saves == old(saves) && modalVisible == old(modalVisible)
        && addModal.taskText == old(addModal.taskText)
      ensures !IsBlank(old(addModal.taskText)) ==>
        && todos == AddTask(old(todos), id, old(addModal.taskText))
        && saves == old(saves) + [todos]
        && !modalVisible && addModal.taskText == ""
    {
      var calls := addModal.Submit();
      if calls != [] {
        HandleAddTask(id, calls[0].text);
        CloseAddModal();
      }
    }

    /** The add dialog's "Cancel" button: the dialog is hidden and its buffer keeps its text. */
    method CancelAddModal()
      modifies this`modalVisible
      ensures !modalVisible && addModal.taskText == old(addModal.taskText)
    {
      var calls := addModal.Cancel();
      CloseAddModal();
    }

    /**
     * The edit dialog's "Save Changes" button delivered to this screen. It has an
     * effect only with a non-blank buffer and a staged task; then the staged
     * task's id gets the untrimmed buffer as its text and the dialog is hidden.
     */
    method SubmitEditModal()
      requires Valid()
      modifies this`todos, this`saves, this`isEditModalVisible, this`editingTodo, editModal
      ensures Valid()
      ensures editModal.taskText == old(editModal.taskText)
      ensures IsBlank(old(editModal.taskText)) || old(editingTodo).None? ==>
        && todos == old(todos) && saves == old(saves)
        && isEditModalVisible == old(isEditModalVisible) && editingTodo == old(editingTodo)
      ensures !IsBlank(old(editModal.taskText)) && old(editingTodo).Some? ==>
        && todos == EditTodo(old(todos), old(editingTodo).value.id, old(editModal.taskText))
        && saves == old(saves) + (if old(todos) != [] then [todos] else [])
        && !isEditModalVisible && editingTodo == None
    {
      var calls := editModal.Submit();
      if calls != [] {
        HandleSaveTask(calls[0].id, calls[0].text);
        CloseEditModal();
      }
    }
  }
}
