/** Round-robin scheduling as steps on a current task and a queue of ready tasks. */
module Scheduling {
  datatype Status = Ready | Running | Blocked | Dead

  datatype State<!T(==)> = State(current: T, queue: seq<T>, status: map<T, Status>)

  /** An interrupt may reschedule between the two halves of task_exit, so they are separate steps. */
  datatype Step<T> = MakeReady(task: T) | Reschedule | MarkDead

  // ---------- steps ----------

  /** task_ready. */
  function Enqueued<T(==)>(s: State<T>, t: T): State<T> {
    s.(queue := s.queue + [t], status := s.status[t := Ready])
  }

  /** The first half of task_exit. */
  function Died<T(==)>(s: State<T>): State<T> { s.(status := s.status[s.current := Dead]) }

  /** task_schedule and task_schedule_from_irq: the head of the queue runs next, or idle when the queue
      is empty, and a current task that is running goes to the end of the queue. */
  function Switched<T(==)>(s: State<T>, idle: T): State<T>
    requires s.current in s.status
  {
    if s.queue == [] && s.status[s.current] != Dead && s.current == idle then s
    else
      var next := if s.queue == [] then idle else s.queue[0];
      var rest := if s.queue == [] then [] else s.queue[1..];
      if s.status[s.current] == Running then State(next, rest + [s.current], s.status[s.current := Ready][next := Running])
      else State(next, rest, s.status[next := Running])
  }

  function Next<T(==)>(s: State<T>, idle: T, step: Step<T>): State<T>
    requires s.current in s.status
  {
    match step
    case MakeReady(t) => Enqueued(s, t)
    case Reschedule => Switched(s, idle)
    case MarkDead => Died(s)
  }

  /** What callers owe: only a task that is not current, queued or dead is made ready, and idle never exits. */
  predicate Allowed<T(==)>(s: State<T>, idle: T, step: Step<T>) {
    match step
    case MakeReady(t) => t != s.current && t !in s.queue && (t in s.status ==> s.status[t] != Dead)
    case Reschedule => true
    case MarkDead => s.current != idle
  }

  // ---------- what every step keeps ----------

  ghost predicate Safe<T>(s: State<T>, idle: T) {
    && s.current in s.status && (s.status[s.current] == Running || s.status[s.current] == Dead)
    && (forall i, j :: 0 <= i < j < |s.queue| ==> s.queue[i] != s.queue[j])
    && s.current !in s.queue
    && (forall t :: t in s.queue ==> t in s.status && s.status[t] == Ready)
    && (forall t :: t in s.status && s.status[t] == Running ==> t == s.current)
    && (idle == s.current || idle in s.queue) && (idle == s.current ==> s.status[idle] == Running)
  }

  lemma {:induction false} StepSafe<T>(s: State<T>, idle: T, step: Step<T>)
    requires Safe(s, idle) && Allowed(s, idle, step)
    ensures Safe(Next(s, idle, step), idle)
  {
    if step == Reschedule && s.queue != [] {
      assert s.queue == [s.queue[0]] + s.queue[1..];
    }
  }

  /** The idle fallback never fires: with an empty queue idle is running, and stays. */
  lemma {:induction false} FallbackNeverFires<T>(s: State<T>, idle: T)
    requires Safe(s, idle)
    ensures s.queue == [] ==>
              s.current == idle && s.current in s.status && s.status[idle] == Running && Switched(s, idle) == s
  {
  }

  // ---------- runs ----------

  ghost predicate Permitted<T>(s: State<T>, idle: T, steps: seq<Step<T>>)
    decreases |steps|
  {
    steps == [] || (s.current in s.status && Allowed(s, idle, steps[0]) && Permitted(Next(s, idle, steps[0]), idle, steps[1..]))
  }

  function Run<T(==)>(s: State<T>, idle: T, steps: seq<Step<T>>): State<T>
    decreases |steps|
  {
    if steps == [] || s.current !in s.status then s else Run(Next(s, idle, steps[0]), idle, steps[1..])
  }

  lemma {:induction false} RunSafe<T>(s: State<T>, idle: T, steps: seq<Step<T>>)
    requires Safe(s, idle) && Permitted(s, idle, steps)
    ensures Safe(Run(s, idle, steps), idle)
    decreases |steps|
  {
    if steps != [] {
      StepSafe(s, idle, steps[0]);
      RunSafe(Next(s, idle, steps[0]), idle, steps[1..]);
    }
  }

  /** A dead task that is not current stays dead, is never queued and never runs again. */
  lemma {:induction false} DeadForever<T>(s: State<T>, idle: T, steps: seq<Step<T>>, t: T)
    requires Safe(s, idle) && Permitted(s, idle, steps) && t in s.status && s.status[t] == Dead && t != s.current
    ensures var r := Run(s, idle, steps); t in r.status && r.status[t] == Dead && t != r.current && t !in r.queue
    decreases |steps|
  {
    if steps != [] {
      StepSafe(s, idle, steps[0]);
      assert s.queue != [] ==> s.queue[0] in s.queue;
      DeadForever(Next(s, idle, steps[0]), idle, steps[1..], t);
    }
  }

  /** A current task that exits is not current after the next switch. */
  lemma {:induction false} ExitLeaves<T>(s: State<T>, idle: T)
    requires Safe(s, idle) && s.current != idle
    ensures var r := Switched(Died(s), idle);
            r.current != s.current && r.status[s.current] == Dead && s.current !in r.queue
  {
    assert s.queue != [] ==> s.queue[0] in s.queue;
  }

  function Switches<T(==)>(steps: seq<Step<T>>): nat {
    if steps == [] then 0 else (if steps[0] == Reschedule then 1 else 0) + Switches(steps[1..])
  }

  /** Until k switches are over, the task at position k moves forward by one with each of them. */
  lemma {:induction false} MovesForward<T>(s: State<T>, idle: T, steps: seq<Step<T>>, k: nat)
    requires Safe(s, idle) && Permitted(s, idle, steps) && k < |s.queue| && Switches(steps) <= k
    ensures var (r, n) := (Run(s, idle, steps), Switches(steps));
            Safe(r, idle) && k - n < |r.queue| && r.queue[k - n] == s.queue[k]
    decreases |steps|
  {
    if steps != [] {
      StepSafe(s, idle, steps[0]);
      MovesForward(Next(s, idle, steps[0]), idle, steps[1..], if steps[0] == Reschedule then k - 1 else k);
    }
  }

  /** A task at queue position k runs at exactly the (k + 1)-th switch, whatever else happens. */
  lemma {:induction false} BoundedWaiting<T>(s: State<T>, idle: T, steps: seq<Step<T>>, k: nat)
    requires Safe(s, idle) && Permitted(s, idle, steps) && k < |s.queue| && Switches(steps) <= k
    ensures Run(s, idle, steps).current in Run(s, idle, steps).status
    ensures Run(s, idle, steps).current != s.queue[k]
    ensures Switches(steps) == k ==> Switched(Run(s, idle, steps), idle).current == s.queue[k]
  {
    MovesForward(s, idle, steps, k);
  }
}
