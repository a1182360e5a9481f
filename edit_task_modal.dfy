/**
 * The "Edit Task" dialog. It owns the text buffer `taskText`, which an effect
 * seeds from the `initialTask` prop whenever that prop changes to a task; its
 * parent receives the callbacks `onSave` and `onClose`.
 */
module EditDialog {
  import opened Wrappers
  import opened Text
  import opened Tasks

  /** A callback the dialog invokes on its parent. */
  datatype Call = OnSave(id: string, text: string) | OnClose

  class EditTaskModal {
    /** The contents of the text input. */
    var taskText: string
    /** The `initialTask` prop as of the last render: the seeding effect's dependency. */
    var initialTask: Option<Task>

    /** The first render: the buffer starts empty and the effect runs once for the given prop. */
    constructor (task: Option<Task>)
      ensures initialTask == task
      ensures taskText == if task.Some? then task.value.text else ""
    {
      initialTask := task;
      taskText := if task.Some? then task.value.text else "";
    }

    /** The input's change handler: the buffer becomes what was typed. */
    method ChangeText(typed: string)
      modifies this
      ensures taskText == typed && initialTask == old(initialTask)
    {
      taskText := typed;
    }

    /**
     * A re-render with prop `task`. The seeding effect runs only when the prop
     * differs from the last one, and then copies the text of a present task;
     * a prop that became null leaves the buffer as it was.
     */
    method Render(task: Option<Task>)
      modifies this
      ensures initialTask == task
      ensures task != old(initialTask) && task.Some? ==> taskText == task.value.text
      ensures task == old(initialTask) || task.None? ==> taskText == old(taskText)
    {
      if task != initialTask {
        if task.Some? {
          taskText := task.value.text;
        }
      }
      initialTask := task;
    }

    /**
     * The "Save Changes" button. It fires only for a non-blank buffer and a
     * present task, and then emits the task's id with the untrimmed buffer and
     * asks to close. It never touches the buffer.
     */
    method Submit() returns (calls: seq<Call>)
      ensures calls != [] <==> !IsBlank(taskText) && initialTask.Some?
      ensures calls != [] ==> calls == [OnSave(initialTask.value.id, taskText), OnClose]
    {
      calls := [];
      if !IsBlank(taskText) && initialTask.Some? {
        calls := [OnSave(initialTask.value.id, taskText)];
        calls := calls + [OnClose];
      }
    }

    /** The "Cancel" button and the back gesture: only `onClose`. */
    method Cancel() returns (calls: seq<Call>)
      ensures calls == [OnClose]
    {
      calls := [OnClose];
    }
  }
}
