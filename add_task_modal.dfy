/**
 * The "New Task" dialog. It owns the text buffer `taskText`; its parent
 * decides visibility and receives the callbacks `onAddTask` and `onClose`.
 * The callbacks a handler fires are returned in the order they are invoked.
 */
module AddDialog {
  import opened Text

  /** A callback the dialog invokes on its parent. */
  datatype Call = OnAddTask(text: string) | OnClose

  class AddTaskModal {
    /** The contents of the text input. */
    var taskText: string

    /** The dialog mounts with an empty buffer. */
    constructor ()
      ensures taskText == ""
    {
      taskText := "";
    }

    /** The input's change handler: the buffer becomes what was typed. */
    method ChangeText(typed: string)
      modifies this
      ensures taskText == typed
    {
      taskText := typed;
    }

    /**
     * The "Add Task" button. A blank buffer is ignored: nothing is emitted,
     * nothing is cleared, the dialog stays open. Otherwise the untrimmed buffer
     * goes to `onAddTask`, the buffer is cleared and `onClose` is called once.
     */
    method Submit() returns (calls: seq<Call>)
      modifies this
      ensures IsBlank(old(taskText)) ==> calls == [] && taskText == old(taskText)
      ensures !IsBlank(old(taskText)) ==> calls == [OnAddTask(old(taskText)), OnClose] && taskText == ""
    {
      calls := [];
      if !IsBlank(taskText) {
        calls := calls + [OnAddTask(taskText)];
        taskText := "";
        calls := calls + [OnClose];
      }
    }

    /** The "Cancel" button and the back gesture: only `onClose`; the buffer keeps its text. */
    method Cancel() returns (calls: seq<Call>)
      ensures calls == [OnClose]
    {
      calls := [OnClose];
    }
  }
}
