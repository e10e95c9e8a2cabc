/**
 * The TaskList component as an object: its one state variable, the list of
 * tasks, is a field that each handler replaces wholesale (as `setTasks` does),
 * and every handler keeps the ids of the list unique.
 */
module TaskListComponent {
  import opened Wrappers
  import opened Tasks

  class TaskList {
    var tasks: seq<Task>

    ghost predicate Valid()
      reads this
    {
      UniqueIds(tasks)
    }

    constructor ()
      ensures Valid() && tasks == MockTasks()
    {
      tasks := MockTasks();
    }

    method HandleToggleComplete(id: string)
      requires Valid()
      modifies this
      ensures Valid() && tasks == Toggle(old(tasks), id)
    {
      ToggleKeepsUniqueIds(tasks, id);
      tasks := Toggle(tasks, id);
    }

    method HandleDelete(id: string)
      requires Valid()
      modifies this
      ensures Valid() && tasks == Delete(old(tasks), id)
    {
      DeleteKeepsUniqueIds(tasks, id);
      tasks := Delete(tasks, id);
    }

    /** A drop reported by the drag and drop library for a task rendered from this list. */
    method HandleDragEnd(activeId: string, over: Option<string>)
      requires Valid()
      requires exists i :: 0 <= i < |tasks| && tasks[i].id == activeId
      modifies this
      ensures Valid() && tasks == DragEnd(old(tasks), activeId, over)
    {
      DragKeepsUniqueIds(tasks, activeId, over);
      tasks := DragEnd(tasks, activeId, over);
    }
  }
}
