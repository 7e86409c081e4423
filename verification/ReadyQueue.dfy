/** The scheduler's ready queue of kernel/scheduler.c: tasks linked through their own `next` field,
    with head and tail pointers, and the three selection policies. */
module ReadyQueues {
  import opened Schedule

  const MIN_PRIORITY := 0
  const MAX_PRIORITY := 40
  const DEFAULT_TIME_SLICE := 10
  const MIN_TIME_SLICE := 1
  const MAX_TIME_SLICE := 50

  function Clamp(x: int, low: int, high: int): (r: int)
    requires low <= high
    ensures low <= r <= high && (low <= x <= high ==> r == x)
    ensures (x < low ==> r == low) && (x > high ==> r == high)
  {
    if x < low then low else if x > high then high else x
  }

  datatype Policy = RoundRobin | Priority | Fifo

  class Task {
    var state: TaskState
    var priority: int
    var next: Task?

    /** A task as `create_task` leaves it. */
    constructor ()
      ensures priority == 10 && next == null && state == Ready
    {
      priority, state, next := 10, Ready, null;
    }

    /** The kernel task as `init_task_manager` leaves it. */
    constructor Kernel()
      ensures priority == 0 && next == null && state == Running
    {
      priority, state, next := 0, Running, null;
    }
  }

  /** The queue with its first occurrence of `t` taken out. */
  ghost function Without(q: seq<Task>, t: Task): (r: seq<Task>) {
    if q == [] then [] else if q[0] == t then q[1..] else [q[0]] + Without(q[1..], t)
  }

  ghost predicate Distinct(q: seq<Task>) {
    forall i, j :: 0 <= i < j < |q| ==> q[i] != q[j]
  }

  /** The `next` links of `q` run from first to last and end there. */
  ghost predicate Chained(q: seq<Task>)
    reads q
  {
    forall i :: 0 <= i < |q| ==> LinkedAt(q, i)
  }

  ghost predicate LinkedAt(q: seq<Task>, i: int)
    requires 0 <= i < |q|
    reads q
  {
    q[i].next == if i + 1 < |q| then q[i + 1] else null
  }

  lemma {:induction false} WithoutAt(q: seq<Task>, i: nat)
    requires i < |q| && Distinct(q)
    ensures Without(q, q[i]) == q[..i] + q[i + 1..]
    decreases i
  {
    if i > 0 {
      assert Distinct(q[1..]);
      WithoutAt(q[1..], i - 1);
      assert [q[0]] + q[1..][..i - 1] == q[..i] && q[1..][i..] == q[i + 1..];
    }
  }

  lemma {:induction false} WithoutKeeps(q: seq<Task>, t: Task?)
    ensures t != null ==> forall x :: x in Without(q, t) ==> x in q
  {
    if t != null && q != [] {
      WithoutKeeps(q[1..], t);
    }
  }

  lemma {:induction false} WithoutAbsent(q: seq<Task>, t: Task)
    requires t !in q
    ensures Without(q, t) == q
  {
    if q != [] {
      WithoutAbsent(q[1..], t);
    }
  }

  /** Adding an absent task and removing it again gives the same queue. */
  lemma AddThenRemove(q: seq<Task>, t: Task)
    requires Distinct(q) && t !in q
    ensures Without(q + [t], t) == q
  {
    var r := q + [t];
    assert Distinct(r) && r[|q|] == t;
    WithoutAt(r, |q|);
    assert r[..|q|] == q && r[|q| + 1..] == [];
  }

  /** `r` is the first READY task of the queue, or the idle task if none is READY. */
  ghost predicate FirstReady(q: seq<Task>, idle: Task?, r: Task?)
    reads q
  {
    || (exists i :: 0 <= i < |q| && q[i] == r && q[i].state == Ready && forall j :: 0 <= j < i ==> q[j].state != Ready)
    || (r == idle && forall j :: 0 <= j < |q| ==> q[j].state != Ready)
  }

  /** There is only one such task, so round robin and FIFO always agree. */
  lemma FirstReadyUnique(q: seq<Task>, idle: Task?, r: Task?, s: Task?)
    requires FirstReady(q, idle, r) && FirstReady(q, idle, s)
    ensures r == s
  {
  }

  /** READY, and not hidden by the search's initial bound of 41. */
  ghost predicate Eligible(t: Task)
    reads t
  {
    t.state == Ready && t.priority <= MAX_PRIORITY
  }

  /** `q[i]` is eligible, no eligible task has a smaller number, and no earlier one an equal number. */
  ghost predicate BestAt(q: seq<Task>, i: int)
    requires 0 <= i < |q|
    reads q
  {
    && Eligible(q[i])
    && (forall j :: 0 <= j < |q| && Eligible(q[j]) ==> q[i].priority <= q[j].priority)
    && forall j :: 0 <= j < i && Eligible(q[j]) ==> q[i].priority < q[j].priority
  }

  ghost predicate Best(q: seq<Task>, idle: Task?, r: Task?)
    reads q
  {
    || (exists i :: 0 <= i < |q| && q[i] == r && BestAt(q, i))
    || (r == idle && forall j :: 0 <= j < |q| ==> !Eligible(q[j]))
  }

  ghost predicate InRange(t: Task)
    reads t
  {
    MIN_PRIORITY <= t.priority <= MAX_PRIORITY
  }

  ghost predicate AllInRange(q: seq<Task>)
    reads q
  {
    forall i :: 0 <= i < |q| ==> InRange(q[i])
  }

  /** `r` is the earliest READY task of least number, or the idle task when nothing is READY. */
  ghost predicate LeastReady(q: seq<Task>, idle: Task?, r: Task?)
    reads q
  {
    || (exists i :: 0 <= i < |q| && q[i] == r && LeastAt(q, i))
    || (r == idle && forall j :: 0 <= j < |q| ==> q[j].state != Ready)
  }

  ghost predicate LeastAt(q: seq<Task>, i: int)
    requires 0 <= i < |q|
    reads q
  {
    && q[i].state == Ready
    && (forall j :: 0 <= j < |q| && q[j].state == Ready ==> q[i].priority <= q[j].priority)
    && forall j :: 0 <= j < i && q[j].state == Ready ==> q[i].priority < q[j].priority
  }

  /** The choice is the least READY task exactly if some READY task is within the bound of 41 or none is READY:
      otherwise the idle task is chosen over a READY one. */
  lemma BestExactly(q: seq<Task>, idle: Task?, r: Task?)
    requires Best(q, idle, r) && (idle == null || idle !in q)
    ensures LeastReady(q, idle, r) <==>
      (exists i :: 0 <= i < |q| && Eligible(q[i])) || forall j :: 0 <= j < |q| ==> q[j].state != Ready
  {
    if exists i :: 0 <= i < |q| && Eligible(q[i]) {
      var i :| 0 <= i < |q| && q[i] == r && BestAt(q, i);
      assert forall j :: 0 <= j < |q| && q[j].state == Ready ==> Eligible(q[j]) || q[j].priority > MAX_PRIORITY;
      assert LeastAt(q, i);
    }
  }

  /** With priorities in range the bound of 41 hides no READY task. */
  lemma BestInRange(q: seq<Task>, idle: Task?, r: Task?)
    requires Best(q, idle, r) && AllInRange(q)
    ensures LeastReady(q, idle, r)
  {
    assert forall j :: 0 <= j < |q| ==> InRange(q[j]) && (Eligible(q[j]) <==> q[j].state == Ready);
    if exists i :: 0 <= i < |q| && q[i] == r && BestAt(q, i) {
      var i :| 0 <= i < |q| && q[i] == r && BestAt(q, i);
      assert LeastAt(q, i);
    }
  }

  /** Out of range one can be hidden: a lone READY task of number 41 loses to the idle task. */
  lemma HiddenOutOfRange(t: Task)
    requires t.state == Ready
    ensures Best([t], null, null) <==> t.priority > MAX_PRIORITY
  {
    assert [t][0] == t;
    if t.priority <= MAX_PRIORITY {
      assert Eligible([t][0]);
    }
  }

  class ReadyQueue {
    var head: Task?
    var tail: Task?
    var idle: Task?
    var policy: Policy
    var timeSlice: int

    /** The tasks in the queue, front first. */
    ghost var q: seq<Task>

    ghost predicate Valid()
      reads this, q
    {
      && Distinct(q) && Chained(q)
      && (q == [] ==> head == null && tail == null)
      && (q != [] ==> head == q[0] && tail == q[|q| - 1])
    }

    constructor (idle: Task?)
      ensures Valid() && q == [] && this.idle == idle && policy == RoundRobin && timeSlice == DEFAULT_TIME_SLICE
    {
      head, tail, this.idle, policy, timeSlice := null, null, idle, RoundRobin, DEFAULT_TIME_SLICE;
      q := [];
    }

    /** `add_task_to_scheduler`. An absent task goes to the end. A task already queued cuts off everything
        behind it, and the queue survives exactly if the task was not the last one: that one ends up
        linked to itself. */
    method Add(task: Task?)
      requires Valid()
      modifies this`head, this`tail, this`q, task, q
      ensures task == null ==> Valid() && q == old(q)
      ensures task != null ==> task.state == Ready && task.priority == old(task.priority)
      ensures task != null && task !in old(q) ==> Valid() && q == old(q) + [task]
      ensures task != null && task in old(q) && task != old(tail) ==>
        Valid() && exists i :: 0 <= i < |old(q)| && old(q)[i] == task && q == old(q)[..i + 1]
      ensures task != null && task == old(tail) ==> q == old(q) && task.next == task && !Valid()
      ensures forall t :: t in old(q) && t != task ==> t.state == old(t.state) && t.priority == old(t.priority)
      ensures forall t :: t in old(q) && t != task && t != old(tail) ==> t.next == old(t.next)
      ensures old(AllInRange(q)) && (task != null ==> old(InRange(task))) ==> AllInRange(q)
    {
      AddLinked(task);
      assert forall t :: t in q ==> t in old(q) || t == task;
    }

    /** The list surgery of `add_task_to_scheduler`. */
    method AddLinked(task: Task?)
      requires Valid()
      modifies this`head, this`tail, this`q, task, q
      ensures task == null ==> Valid() && q == old(q)
      ensures task != null ==> task.state == Ready && task.priority == old(task.priority)
      ensures task != null && task !in old(q) ==> Valid() && q == old(q) + [task]
      ensures task != null && task in old(q) && task != old(tail) ==>
        Valid() && exists i :: 0 <= i < |old(q)| && old(q)[i] == task && q == old(q)[..i + 1]
      ensures task != null && task == old(tail) ==> q == old(q) && task.next == task && !Valid()
      ensures forall t :: t in old(q) && t != task ==> t.state == old(t.state) && t.priority == old(t.priority)
      ensures forall t :: t in old(q) && t != task && t != old(tail) ==> t.next == old(t.next)
    {
      if task == null {
        return;
      }
      ghost var pos := if task in q then IndexOf(q, task) else |q|;
      task.next := null;
      task.state := Ready;
      if head == null {
        head := task;
        tail := task;
      } else {
        tail.next := task;
        tail := task;
      }
      q := q[..pos] + [task];
      assert LinkedAt(q, |q| - 1) <==> task.next == null;
      if task.next == null {
        forall i | 0 <= i < |q| ensures LinkedAt(q, i) {
          assert i < |old(q)| ==> old(LinkedAt(q, i));
        }
      }
    }

    static ghost function IndexOf(s: seq<Task>, t: Task): (i: nat)
      requires t in s
      ensures i < |s| && s[i] == t
    {
      if s[0] == t then 0 else 1 + IndexOf(s[1..], t)
    }

    /** `remove_task_from_scheduler`. */
    method Remove(task: Task?)
      requires Valid()
      modifies this`head, this`tail, this`q, q
      ensures Valid() && q == if task == null then old(q) else Without(old(q), task)
      ensures forall t :: t in old(q) ==> t.state == old(t.state) && t.priority == old(t.priority)
      ensures task != null ==> task.next == old(task.next)
      ensures old(AllInRange(q)) ==> AllInRange(q)
    {
      WithoutKeeps(q, task);
      RemoveLinked(task);
    }

    /** The list surgery of `remove_task_from_scheduler`. */
    method RemoveLinked(task: Task?)
      requires Valid()
      modifies this`head, this`tail, this`q, q
      ensures Valid() && q == if task == null then old(q) else Without(old(q), task)
      ensures forall t :: t in old(q) ==> t.state == old(t.state) && t.priority == old(t.priority)
      ensures task != null ==> task.next == old(task.next)
    {
      hide Without, Chained;
      if task == null || head == null {
        if task != null { WithoutAbsent(q, task); }
        return;
      }
      if head == task {
        DropHead(task);
        return;
      }
      var current, i := Predecessor(task);
      if current.next == task {
        Unlink(current, task, i);
      } else {
        assert q[..i + 1] == q;
        WithoutAbsent(q, task);
      }
    }

    method DropHead(task: Task)
      requires Valid() && q != [] && head == task
      modifies this`head, this`tail, this`q
      ensures Valid() && q == Without(old(q), task)
    {
      hide Without;
      WithoutAt(q, 0);
      assert LinkedAt(q, 0);
      head := task.next;
      if tail == task {
        tail := null;
      }
      q := q[1..];
      forall i | 0 <= i < |q| ensures LinkedAt(q, i) {
        assert old(LinkedAt(q, i + 1));
      }
    }

    /** The walk in `remove_task_from_scheduler`: the task in front of `task`, or the last one. */
    method Predecessor(task: Task) returns (current: Task, ghost i: nat)
      requires Valid() && q != [] && head != task
      ensures i < |q| && current == q[i] && task !in q[..i + 1]
      ensures current.next == task <==> i + 1 < |q|
      ensures i + 1 < |q| ==> q[i + 1] == task
    {
      current := head;
      i := 0;
      while current.next != null && current.next != task
        invariant i < |q| && current == q[i]
        invariant forall j :: 0 <= j <= i ==> q[j] != task
        decreases |q| - i
      {
        assert LinkedAt(q, i);
        current := current.next;
        i := i + 1;
      }
      assert LinkedAt(q, i);
    }

    /** Takes out the task behind `current`. */
    method Unlink(current: Task, task: Task, ghost i: nat)
      requires Valid() && i + 1 < |q| && current == q[i] && task == q[i + 1]
      modifies this`tail, this`q, current
      ensures Valid() && q == Without(old(q), task)
      ensures current.state == old(current.state) && current.priority == old(current.priority)
    {
      hide Without;
      assert LinkedAt(q, i + 1);
      WithoutAt(q, i + 1);
      current.next := task.next;
      if tail == task {
        tail := current;
      }
      q := q[..i + 1] + q[i + 2..];
      forall k | 0 <= k < |q| ensures LinkedAt(q, k) {
        assert old(LinkedAt(q, if k <= i then k else k + 1));
      }
    }

    /** `get_next_round_robin_task`: a circular loop that stops when it is back at the head. */
    method NextRoundRobin() returns (r: Task?)
      requires Valid()
      ensures FirstReady(q, idle, r)
    {
      if head == null {
        return idle;
      }
      var current := head;
      var start := current;
      ghost var i := 0;
      while true
        invariant 0 <= i < |q| && current == q[i] && start == q[0]
        invariant forall j :: 0 <= j < i ==> q[j].state != Ready
        decreases |q| - i
      {
        if current.state == Ready {
          return current;
        }
        assert LinkedAt(q, i);
        current := if current.next != null then current.next else head;
        if current == start {
          break;
        }
        i := i + 1;
      }
      assert forall j :: 0 <= j < |q| ==> q[j].state != Ready;
      return idle;
    }

    /** `get_next_fifo_task`: a walk from the head. */
    method NextFifo() returns (r: Task?)
      requires Valid()
      ensures FirstReady(q, idle, r)
    {
      var current := head;
      ghost var i := 0;
      while current != null
        invariant 0 <= i <= |q| && current == if i < |q| then q[i] else null
        invariant forall j :: 0 <= j < i ==> q[j].state != Ready
        decreases |q| - i
      {
        if current.state == Ready {
          return current;
        }
        assert LinkedAt(q, i);
        current := current.next;
        i := i + 1;
      }
      return idle;
    }

    /** `find_highest_priority_task`. */
    method HighestPriority() returns (r: Task?)
      requires Valid()
      ensures Best(q, idle, r)
      ensures AllInRange(q) ==> LeastReady(q, idle, r)
    {
      r := BestTask();
      if AllInRange(q) {
        BestInRange(q, idle, r);
      }
    }

    /** Its loop, for any priorities. */
    method BestTask() returns (r: Task?)
      requires Valid()
      ensures Best(q, idle, r)
    {
      var bestTask: Task? := null;
      var highest := MAX_PRIORITY + 1;
      var current := head;
      ghost var i, b := 0, 0;
      while current != null
        invariant 0 <= i <= |q| && current == if i < |q| then q[i] else null
        invariant bestTask == null ==> highest == MAX_PRIORITY + 1 && forall j :: 0 <= j < i ==> !Eligible(q[j])
        invariant bestTask != null ==> 0 <= b < i && q[b] == bestTask && highest == q[b].priority && BestAt(q[..i], b)
        decreases |q| - i
      {
        if current.state == Ready && current.priority < highest {
          highest := current.priority;
          bestTask := current;
          b := i;
        }
        assert LinkedAt(q, i);
        current := current.next;
        i := i + 1;
      }
      assert q[..i] == q;
      if bestTask != null {
        assert q[b] == bestTask && BestAt(q, b);
        return bestTask;
      }
      return idle;
    }

    /** `get_next_task`. */
    method NextTask() returns (r: Task?)
      requires Valid()
      ensures policy == Priority ==> Best(q, idle, r) && (AllInRange(q) ==> LeastReady(q, idle, r))
      ensures policy != Priority ==> FirstReady(q, idle, r)
    {
      match policy {
        case RoundRobin => r := NextRoundRobin();
        case Priority => r := HighestPriority();
        case Fifo => r := NextFifo();
      }
    }

    /** `set_task_priority`, with the time slice it recomputes. */
    method SetPriority(task: Task?, priority: int)
      modifies task, this`timeSlice
      ensures task != null ==> task.priority == if priority < 0 then 0 else if priority > 40 then 40 else priority
      ensures task != null ==> timeSlice == 50 - task.priority
      ensures task != null ==> task.state == old(task.state) && task.next == old(task.next)
      ensures task == null ==> timeSlice == old(timeSlice)
      ensures old(AllInRange(q)) ==> AllInRange(q)
    {
      if task == null {
        return;
      }
      task.priority := Clamp(priority, MIN_PRIORITY, MAX_PRIORITY);
      timeSlice := Clamp(DEFAULT_TIME_SLICE + (MAX_PRIORITY - task.priority), MIN_TIME_SLICE, MAX_TIME_SLICE);
    }
  }
}
