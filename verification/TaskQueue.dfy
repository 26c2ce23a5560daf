/** The task list of mjl_threadpool.c: linked tasks between a head and a tail. */
module TaskQueue {
  import opened Wrappers

  // func and ptr are one number: what matters is which task it is.
  datatype Job = Job(id: nat, onion: bool)

  class Task {
    const job: Job
    var next: Task?

    constructor (job: Job)
      ensures this.job == job && next == null
    {
      this.job := job;
      next := null;
    }
  }

  class Queue {
    var head: Task?
    var tail: Task?
    ghost var tasks: seq<Task>

    ghost predicate Valid()
      reads this, tasks
    {
      && (forall i, j :: 0 <= i < j < |tasks| ==> tasks[i] != tasks[j])
      && (forall i, j :: 0 <= i && j == i + 1 && j < |tasks| ==> tasks[i].next == tasks[j])
      && (tasks == [] ==> head == null && tail == null)
      && (tasks != [] ==> head == tasks[0] && tail == tasks[|tasks| - 1] && tasks[|tasks| - 1].next == null)
    }

    ghost function Jobs(): (s: seq<Job>)
      reads this
      ensures |s| == |tasks|
    {
      seq(|tasks|, i requires 0 <= i < |tasks| reads this => tasks[i].job)
    }

    constructor ()
      ensures Valid() && Jobs() == []
    {
      head, tail, tasks := null, null, [];
    }

    /** threadpool_task_add, at the tail. */
    method AddTail(job: Job)
      requires Valid()
      modifies this, tasks
      ensures Valid() && (forall t :: t in tasks ==> t in old(tasks) || fresh(t)) && Jobs() == old(Jobs()) + [job]
    {
      var task := new Task(job);
      if tail != null {
        tail.next := task;
      } else {
        tail, head := task, task;
      }
      task.next := null;
      tail := task;
      tasks := tasks + [task];
    }

    /** threadpool_task_add, at the head. */
    method AddHead(job: Job)
      requires Valid()
      modifies this
      ensures Valid() && (forall t :: t in tasks ==> t in old(tasks) || fresh(t)) && Jobs() == [job] + old(Jobs())
    {
      var task := new Task(job);
      task.next := head;
      if head != null {
        head := task;
      } else {
        head, tail := task, task;
      }
      tasks := [task] + tasks;
      assert forall i :: 0 < i < |tasks| ==> tasks[i] == old(tasks)[i - 1];
    }

    /** What threadpool_run takes to work on; None stands for an empty list. */
    method Take() returns (r: Option<Job>)
      requires Valid()
      modifies this
      ensures Valid() && forall t :: t in tasks ==> t in old(tasks)
      ensures if old(Jobs()) == [] then r == None && Jobs() == []
              else r == Some(old(Jobs())[0]) && Jobs() == old(Jobs())[1..]
    {
      if head == null {
        return None;
      }
      r := Some(head.job);
      head := head.next;
      if head == null {
        tail := null;
      }
      tasks := tasks[1..];
    }
  }
}
