/**
 The task queue of the thread pool between two turns of its lock: a linked list whose tail is the address of
 the last link.  What happens inside the lock, with any number of threads, is in ThreadPoolRun.dfy.
 */
module ThreadPool {
  import opened Sequences

  class Task {
    var next: Task?

    constructor Post()
    {
      next := null;
    }
  }

  /** What the tail points to: the head pointer of the queue or the link of a task. */
  datatype Slot = HeadSlot | LinkOf(task: Task)

  class TaskQueue {
    var head: Task?
    var tail: Slot
    ghost var tasks: seq<Task>

    ghost predicate Valid()
      reads this, tasks
    {
      && Injective(tasks)
      && head == (if tasks == [] then null else tasks[0])
      && tail == (if tasks == [] then HeadSlot else LinkOf(tasks[|tasks| - 1]))
      && forall i {:trigger tasks[i].next} :: 0 <= i < |tasks| ==>
        tasks[i].next == if i + 1 < |tasks| then tasks[i + 1] else null
    }

    constructor Create()
      ensures Valid() && tasks == []
    {
      head, tail, tasks := null, HeadSlot, [];
    }

    /** __add_task between lock and unlock, after the new task's own link was cleared. */
    method AddTask(link: Task)
      requires Valid() && link !in tasks
      modifies this, link`next, tasks`next
      ensures Valid() && tasks == old(tasks) + [link]
    {
      link.next := null;
      match tail {
        case HeadSlot => head := link;
        case LinkOf(task) => task.next := link;
      }
      tail := LinkOf(link);
      tasks := tasks + [link];
    }

    /** __pop_task */
    method PopTask() returns (task: Task?)
      requires Valid()
      modifies this
      ensures Valid()
      ensures task == if old(tasks) == [] then null else old(tasks)[0]
      ensures tasks == if old(tasks) == [] then [] else old(tasks)[1..]
    {
      if head == null {
        return null;
      }
      task := head;
      head := task.next;
      if head == null {
        tail := HeadSlot;
      }
      tasks := tasks[1..];
    }
  }
}
