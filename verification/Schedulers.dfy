/** multi_task.c: the current task and the ready queue, linked through the tasks themselves. */
module Schedulers {
  import opened Utils
  import opened Scheduling

  /** The fields of struct task that scheduling uses. */
  class Task {
    var state: Status
    var next: Task?

    constructor (state: Status)
      ensures this.state == state && next == null
    {
      this.state, next := state, null;
    }
  }

  class Scheduler {
    const idle: Task
    var current: Task
    var head: Task?
    var tail: Task?
    ghost var queue: seq<Task>
    ghost var tasks: set<Task>

    /** The pointers link the queue from head to tail. */
    ghost predicate Linked()
      reads this, tasks
    {
      && (forall i :: 0 <= i < |queue| ==> queue[i] in tasks)
      && (if queue == [] then head == null && tail == null
          else head == queue[0] && tail == queue[|queue| - 1] && queue[|queue| - 1].next == null)
      && (forall i :: 0 <= i < |queue| - 1 ==> queue[i].next == queue[i + 1])
    }

    ghost predicate Valid()
      reads this, tasks
    {
      idle in tasks && current in tasks && Linked() && Safe(Abstract(), idle)
    }

    ghost function Abstract(): State<Task>
      reads this, tasks
    {
      State(current, queue, map t | t in tasks :: t.state)
    }

    /** task_init: the running context becomes the idle task. */
    constructor ()
      ensures Valid() && current == idle && queue == [] && tasks == {idle} && fresh(idle)
    {
      var t := new Task(Running);
      idle, current := t, t;
      head, tail := null, null;
      queue, tasks := [], {t};
    }

    method TaskReady(task: Task?)
      requires Valid() && (task != null ==> Allowed(Abstract(), idle, MakeReady(task)))
      modifies this, tasks, task
      ensures Valid() && tasks == old(tasks) + (if task == null then {} else {task})
      ensures Abstract() == if task == null then old(Abstract()) else old(Next(Abstract(), idle, MakeReady(task)))
    {
      hide Safe;
      if task == null {
        return;
      }
      StepSafe(Abstract(), idle, MakeReady(task));
      NoRepeats(Abstract());
      task.state := Ready;
      Append(task);
      assert Abstract() == old(Next(Abstract(), idle, MakeReady(task)));
    }

    lemma {:induction false} NoRepeats(s: State<Task>)
      requires Safe(s, idle)
      ensures Distinct(s.queue) && s.current !in s.queue
    {
    }

    /** Links a task behind the last one. */
    method Append(task: Task)
      requires Linked() && Distinct(queue) && task !in queue
      modifies this`head, this`tail, this`queue, this`tasks, tasks`next, task`next
      ensures Linked() && queue == old(queue) + [task] && tasks == old(tasks) + {task}
    {
      if tail != null {
        tail.next := task;
        tail := task;
      } else {
        head, tail := task, task;
      }
      task.next := null;
      queue, tasks := queue + [task], tasks + {task};
    }

    lemma {:induction false} LinkedHead()
      requires Linked()
      ensures head == null <==> queue == []
      ensures head != null ==> head == queue[0] && head in queue && head in tasks
    {
    }

    /** Takes the first task off the queue. */
    method Dequeue() returns (task: Task)
      requires Linked() && Distinct(queue) && head != null
      modifies this`head, this`tail, this`queue, tasks`next
      ensures Linked() && Distinct(queue) && old(queue) == [task] + queue && task !in queue
    {
      task := head;
      head := task.next;
      if head == null {
        tail := null;
      }
      task.next := null;
      queue := queue[1..];
    }

    /** task_schedule; task_schedule_from_irq changes the scheduler's state in the same way. */
    method Schedule()
      requires Valid()
      modifies this, tasks
      ensures Valid() && tasks == old(tasks) && Abstract() == old(Switched(Abstract(), idle))
    {
      hide Safe, Distinct, Linked;
      StepSafe(Abstract(), idle, Reschedule);
      NoRepeats(Abstract());
      FallbackNeverFires(Abstract(), idle);
      LinkedHead();
      var next: Task? := null;
      if head != null {
        next := Dequeue();
      }
      if next == null {
        if current.state == Dead || current != idle {
          assert false; // idle is queued whenever it is not running
        } else {
          return;
        }
      }
      ghost var (s, rest) := (old(Abstract()), queue);
      SwitchTo(next);
      SwitchedTo(s, idle, next, rest, Abstract());
    }

    /** The outcome of a switch, field by field. */
    lemma {:induction false} SwitchedTo(s: State<Task>, idle: Task, next: Task, rest: seq<Task>, s': State<Task>)
      requires s.current in s.status && next in s.status && s.queue == [next] + rest && next != s.current
      requires s'.current == next
      requires s'.queue == rest + if s.status[s.current] == Running then [s.current] else []
      requires s'.status.Keys == s.status.Keys && s'.status[next] == Running
      requires s'.status[s.current] == if s.status[s.current] == Running then Ready else s.status[s.current]
      requires forall t :: t in s.status && t != next && t != s.current ==> s'.status[t] == s.status[t]
      ensures s' == Switched(s, idle)
    {
      assert s'.status == Switched(s, idle).status;
    }

    /** A running current task goes behind the others; then next runs. */
    method SwitchTo(next: Task)
      requires Linked() && Distinct(queue) && current in tasks && next in tasks && current !in queue && next != current
      requires next !in queue
      modifies this, tasks
      ensures Linked() && tasks == old(tasks) && current == next
      ensures queue == old(queue) + if old(current.state) == Running then [old(current)] else []
      ensures old(current).state == if old(current.state) == Running then Ready else old(current.state)
      ensures next.state == Running
      ensures forall t :: t in tasks && t != next && t != old(current) ==> t.state == old(t.state)
    {
      if current.state == Running {
        current.state := Ready;
        Append(current);
      }
      current := next;
      next.state := Running;
    }

    /** The first half of task_exit; Schedule follows. */
    method Exit()
      requires Valid() && current != idle
      modifies current
      ensures Valid() && Abstract() == old(Died(Abstract()))
    {
      StepSafe(Abstract(), idle, MarkDead);
      current.state := Dead;
    }
  }
}
