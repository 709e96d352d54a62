/** Undoable commands: each holds the task list it works on, does one change in `Execute`, and
    keeps what it needs to put the list back in `Undo`. The Java interface `UndoableCommand`
    is the three methods every class here has: `Execute`, `Undo` and `GetDescription`. */
module Command {
  import opened Wrappers
  import opened JavaString
  import opened Tasks
  import opened Data

  /** `AddTaskCommand`: appends a task; undoing takes it off the end again. */
  class AddTaskCommand {
    const taskList: TaskList
    const task: Task

    constructor (taskList: TaskList, task: Task)
      ensures this.taskList == taskList && this.task == task
    {
      this.taskList := taskList;
      this.task := task;
    }

    /** `execute`: the task becomes the last element; the others stay as they were. */
    method Execute()
      modifies taskList
      ensures taskList.tasks == old(taskList.tasks) + [task]
    {
      taskList.AddTask(task);
    }

    /** `undo`: removes the last element only when it is this very task object; on an empty
        list, or when another task is last, nothing changes. */
    method Undo()
      modifies taskList
      ensures var ts := old(taskList.tasks);
        if ts != [] && ts[|ts| - 1] == task then taskList.tasks == Removed(ts, |ts| - 1)
        else taskList.tasks == ts
    {
      var lastIndex := taskList.Size() - 1;
      if lastIndex >= 0 && taskList.GetTask(lastIndex) == task {
        taskList.DeleteTask(lastIndex, false);
      }
    }

    /** `getDescription`: "add task: " and then the task's description. */
    function GetDescription(): (s: string)
      ensures |s| == 10 + |task.description|
      ensures s[..10] == "add task: " && s[10..] == task.description
    {
      "add task: " + task.description
    }
  }

  /** `DeleteTaskCommand`: removes the task at an index and remembers it, so that undoing can put
      it back at the same index. */
  class DeleteTaskCommand {
    const taskList: TaskList
    const index: int
    var deletedTask: Option<Task>

    /** Nothing has been deleted yet: Java's `deletedTask` starts as null. */
    constructor (taskList: TaskList, index: int)
      ensures this.taskList == taskList && this.index == index && deletedTask == None
    {
      this.taskList := taskList;
      this.index := index;
      deletedTask := None;
    }

    /** `execute`: the index must be in range (`getTask` asserts it). The task there is saved and
        exactly that element is removed. */
    method Execute()
      requires 0 <= index < |taskList.tasks|
      modifies this, taskList
      ensures deletedTask == Some(old(taskList.tasks[index]))
      ensures taskList.tasks == Removed(old(taskList.tasks), index)
    {
      deletedTask := Some(taskList.GetTask(index));
      taskList.DeleteTask(index, true);
    }

    /** `undo`: puts the saved task back at the index, or does nothing when no task was saved.
        Putting it back needs the index to be at most the current size. */
    method Undo()
      requires deletedTask.Some? ==> 0 <= index <= |taskList.tasks|
      modifies taskList
      ensures deletedTask.Some? ==> taskList.tasks == Inserted(old(taskList.tasks), index, deletedTask.value)
      ensures deletedTask.None? ==> taskList.tasks == old(taskList.tasks)
    {
      if deletedTask.Some? {
        taskList.InsertTask(index, deletedTask.value);
      }
    }

    /** `getDescription`: the saved task's description after `execute`, the index before it. */
    function GetDescription(): (s: string)
      reads this
      ensures |s| >= 13 && s[..13] == "delete task: "
      ensures deletedTask.Some? ==> s[13..] == deletedTask.value.description
      ensures deletedTask.None? ==> s[13..] == "task at index " + IntToString(index)
    {
      "delete task: " + (if deletedTask.Some? then deletedTask.value.description else "task at index " + IntToString(index))
    }
  }

  /** `MarkTaskCommand`: marks the task at an index done, remembering whether it was done. */
  class MarkTaskCommand {
    const taskList: TaskList
    const index: int
    var isPreviousState: bool

    /** Java's `isPreviousState` starts as false. */
    constructor (taskList: TaskList, index: int)
      ensures this.taskList == taskList && this.index == index && !isPreviousState
    {
      this.taskList := taskList;
      this.index := index;
      isPreviousState := false;
    }

    /** `execute`: records the task's done flag, then marks it done. Only that task object
        changes; the list keeps its length and order. */
    method Execute()
      requires 0 <= index < |taskList.tasks|
      modifies this, taskList.tasks[index]
      ensures isPreviousState == old(taskList.tasks[index].isDone)
      ensures taskList.tasks[index].Value() == old(taskList.tasks[index].Value()).(isDone := true)
    {
      var task := taskList.GetTask(index);
      isPreviousState := task.isDone;
      task.MarkAsDone();
    }

    /** `undo`: sets the task at the index back to the recorded flag. */
    method Undo()
      requires 0 <= index < |taskList.tasks|
      modifies taskList.tasks[index]
      ensures taskList.tasks[index].Value() == old(taskList.tasks[index].Value()).(isDone := isPreviousState)
    {
      var task := taskList.GetTask(index);
      if isPreviousState {
        task.MarkAsDone();
      } else {
        task.UnmarkAsNotDone();
      }
    }

    /** `getDescription`: "mark task: " and then the description of the task at the index. */
    function GetDescription(): (s: string)
      reads taskList
      requires 0 <= index < |taskList.tasks|
      ensures |s| == 11 + |taskList.tasks[index].description|
      ensures s[..11] == "mark task: " && s[11..] == taskList.tasks[index].description
    {
      "mark task: " + taskList.GetTask(index).description
    }
  }

  /** `UnmarkTaskCommand`: marks the task at an index not done, remembering whether it was done. */
  class UnmarkTaskCommand {
    const taskList: TaskList
    const index: int
    var isPreviousState: bool

    /** Java's `isPreviousState` starts as false. */
    constructor (taskList: TaskList, index: int)
      ensures this.taskList == taskList && this.index == index && !isPreviousState
    {
      this.taskList := taskList;
      this.index := index;
      isPreviousState := false;
    }

    /** `execute`: records the task's done flag, then marks it not done. Only that task object
        changes; the list keeps its length and order. */
    method Execute()
      requires 0 <= index < |taskList.tasks|
      modifies this, taskList.tasks[index]
      ensures isPreviousState == old(taskList.tasks[index].isDone)
      ensures taskList.tasks[index].Value() == old(taskList.tasks[index].Value()).(isDone := false)
    {
      var task := taskList.GetTask(index);
      isPreviousState := task.isDone;
      task.UnmarkAsNotDone();
    }

    /** `undo`: sets the task at the index back to the recorded flag. */
    method Undo()
      requires 0 <= index < |taskList.tasks|
      modifies taskList.tasks[index]
      ensures taskList.tasks[index].Value() == old(taskList.tasks[index].Value()).(isDone := isPreviousState)
    {
      var task := taskList.GetTask(index);
      if isPreviousState {
        task.MarkAsDone();
      } else {
        task.UnmarkAsNotDone();
      }
    }

    /** `getDescription`: "unmark task: " and then the description of the task at the index. */
    function GetDescription(): (s: string)
      reads taskList
      requires 0 <= index < |taskList.tasks|
      ensures |s| == 13 + |taskList.tasks[index].description|
      ensures s[..13] == "unmark task: " && s[13..] == taskList.tasks[index].description
    {
      "unmark task: " + taskList.GetTask(index).description
    }
  }

  // ---------------------------------------------------------------------------------------------
  // Execute followed by undo

  /** Adding a task and undoing the add leaves the list as it was. */
  method AddThenUndo(list: TaskList, t: Task)
    modifies list
    ensures list.tasks == old(list.tasks)
  {
    var c := new AddTaskCommand(list, t);
    c.Execute();
    c.Undo();
    RemoveAppended(old(list.tasks), t);
  }

  /** Deleting a task and undoing the delete leaves the list as it was, the same task objects in
      the same order. */
  method DeleteThenUndo(list: TaskList, index: int)
    requires 0 <= index < |list.tasks|
    modifies list
    ensures list.tasks == old(list.tasks)
  {
    var c := new DeleteTaskCommand(list, index);
    c.Execute();
    c.Undo();
    InsertRemoved(old(list.tasks), index);
  }

  /** Marking a task and undoing the mark leaves the task as it was, done or not. */
  method MarkThenUndo(list: TaskList, index: int)
    requires 0 <= index < |list.tasks|
    modifies list.tasks[index]
    ensures list.tasks[index].Value() == old(list.tasks[index].Value())
  {
    var c := new MarkTaskCommand(list, index);
    c.Execute();
    c.Undo();
  }

  /** Unmarking a task and undoing the unmark leaves the task as it was, done or not. */
  method UnmarkThenUndo(list: TaskList, index: int)
    requires 0 <= index < |list.tasks|
    modifies list.tasks[index]
    ensures list.tasks[index].Value() == old(list.tasks[index].Value())
  {
    var c := new UnmarkTaskCommand(list, index);
    c.Execute();
    c.Undo();
  }

  /** Marking twice leaves the task done, and the second run records that it was done; undoing
      then keeps it done. */
  method MarkTwice(list: TaskList, index: int)
    requires 0 <= index < |list.tasks|
    modifies list.tasks[index]
    ensures list.tasks[index].Value() == old(list.tasks[index].Value()).(isDone := true)
  {
    var c := new MarkTaskCommand(list, index);
    c.Execute();
    c.Execute();
    assert c.isPreviousState;
    c.Undo();
  }

  /** Unmarking twice leaves the task not done, and undoing then keeps it not done. */
  method UnmarkTwice(list: TaskList, index: int)
    requires 0 <= index < |list.tasks|
    modifies list.tasks[index]
    ensures list.tasks[index].Value() == old(list.tasks[index].Value()).(isDone := false)
  {
    var c := new UnmarkTaskCommand(list, index);
    c.Execute();
    c.Execute();
    assert !c.isPreviousState;
    c.Undo();
  }

  /** Two adds, a mark of the first task and a delete of the second, undone in reverse order,
      give back the empty list and the first task's done flag. The two tasks may even be the
      same object. */
  method AddMarkDeleteUndone(list: TaskList, a: Task, b: Task)
    requires list.tasks == []
    modifies list, a
    ensures list.tasks == []
    ensures a.Value() == old(a.Value())
  {
    var addA := new AddTaskCommand(list, a);
    var addB := new AddTaskCommand(list, b);
    addA.Execute();
    addB.Execute();
    assert list.tasks == [a, b];
    var mark := new MarkTaskCommand(list, 0);
    mark.Execute();
    var delete := new DeleteTaskCommand(list, 1);
    delete.Execute();
    assert list.tasks == [a];
    delete.Undo();
    assert list.tasks == [a, b];
    mark.Undo();
    addB.Undo();
    assert list.tasks == [a];
    addA.Undo();
  }
}
