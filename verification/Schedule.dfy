/** The task list as a value, and the choice made by `schedule`. */
module Schedule {
  datatype TaskState = Running | Ready | Sleeping | Zombie

  predicate Runnable(s: TaskState) {
    s == Ready || s == Running
  }

  /** States of the tasks in list order, and the position of `current_task`. */
  datatype Tasks = Tasks(states: seq<TaskState>, cur: nat)

  const MAX_TASKS := 64

  ghost predicate Valid(t: Tasks) {
    t.cur < |t.states| <= MAX_TASKS
  }

  /** Position after `i` in the list, wrapping at the end. */
  function Successor(n: nat, i: nat): (j: nat)
    requires i < n
    ensures j < n
  {
    if i + 1 < n then i + 1 else 0
  }

  /** Steps forward from `c` to reach `i`, wrapping at the end. */
  function Distance(n: nat, c: nat, i: nat): (d: nat)
    requires c < n && i < n
    ensures d < n
  {
    if c <= i then i - c else i - c + n
  }

  /** The scan loop: from `i`, the first runnable task, stopping at `c` if it comes round. */
  function Scan(s: seq<TaskState>, c: nat, i: nat): (j: nat)
    requires c < |s| && i < |s|
    ensures j < |s|
    decreases Distance(|s|, i, c)
  {
    if i == c || Runnable(s[i]) then i else Scan(s, c, Successor(|s|, i))
  }

  /** The task `schedule` leaves current: the list tail never gives way. */
  function Pick(t: Tasks): (j: nat)
    requires Valid(t)
    ensures j < |t.states|
  {
    if t.cur + 1 == |t.states| then t.cur else Scan(t.states, t.cur, t.cur + 1)
  }

  /** `schedule`. */
  function Scheduled(t: Tasks): (r: Tasks)
    requires Valid(t)
  {
    var j := Pick(t);
    if j == t.cur then t else
      var s := t.states[j := Running];
      Tasks(if s[t.cur] == Running then s[t.cur := Ready] else s, j)
  }

  // ------------------------------------------------------------------ what the scan finds

  lemma {:induction false} ScanFindsFirst(s: seq<TaskState>, c: nat, i: nat)
    requires c < |s| && i < |s|
    ensures var j := Scan(s, c, i);
      && (j == c || Runnable(s[j]))
      && Distance(|s|, i, j) <= Distance(|s|, i, c)
      && forall k :: 0 <= k < |s| && Distance(|s|, i, k) < Distance(|s|, i, j) ==> !Runnable(s[k])
    decreases Distance(|s|, i, c)
  {
    if i != c && !Runnable(s[i]) {
      ScanFindsFirst(s, c, Successor(|s|, i));
    }
  }

  /** `j` is the first runnable task after the current one in circular order; the current one if no other is
      runnable, or if it is the tail. */
  ghost predicate NextInOrder(t: Tasks, j: nat)
    requires Valid(t)
  {
    var n := |t.states|;
    && j < n
    && (t.cur + 1 == n ==> j == t.cur)
    && (t.cur + 1 < n ==>
          && (j == t.cur <==> forall k :: 0 <= k < n && k != t.cur ==> !Runnable(t.states[k]))
          && (j != t.cur ==> Runnable(t.states[j]))
          && (j != t.cur ==>
                forall k :: 0 <= k < n && 0 < Distance(n, t.cur, k) < Distance(n, t.cur, j) ==>
                  !Runnable(t.states[k])))
  }

  /** What `schedule` selects, over all states. */
  lemma PickSpec(t: Tasks)
    requires Valid(t)
    ensures NextInOrder(t, Pick(t))
  {
    var n := |t.states|;
    if t.cur + 1 < n {
      ScanFindsFirst(t.states, t.cur, t.cur + 1);
      assert forall k :: 0 <= k < n && k != t.cur ==> Distance(n, t.cur + 1, k) == Distance(n, t.cur, k) - 1;
    }
  }

  // ------------------------------------------------------------------ all task operations

  datatype Op = Create | Yield | Exit | Sleep | Wake(task: nat)

  /** One task operation. `Create` fails when the table is full; `Wake` of no task is ignored. */
  function Step(t: Tasks, op: Op): (r: Tasks)
    requires Valid(t)
  {
    match op
    case Create => if |t.states| < MAX_TASKS then t.(states := t.states + [Ready]) else t
    case Yield => Scheduled(t)
    case Exit => Scheduled(t.(states := t.states[t.cur := Zombie]))
    case Sleep => Scheduled(t.(states := t.states[t.cur := Sleeping]))
    case Wake(i) =>
      if i < |t.states| && t.states[i] == Sleeping then t.(states := t.states[i := Ready]) else t
  }

  /** Only the current task can be RUNNING. */
  ghost predicate OneRunning(t: Tasks) {
    forall i :: 0 <= i < |t.states| && t.states[i] == Running ==> i == t.cur
  }

  const BOOTED := Tasks([Running], 0)

  lemma StepInvariant(t: Tasks, op: Op)
    requires Valid(t) && OneRunning(t)
    ensures Valid(Step(t, op)) && OneRunning(Step(t, op))
  {
  }

  // ------------------------------------------------------------------ what each operation leaves

  /** State of task `i`, which was in state `s`, after an operation that leaves task `next` current. */
  function StateAfter(op: Op, cur: nat, next: nat, i: nat, s: TaskState): (r: TaskState) {
    match op
    case Create => s
    case Wake(j) => if i == j && s == Sleeping then Ready else s
    case Yield =>
      if cur == next then s else if i == next then Running else if i == cur && s == Running then Ready else s
    case Exit => if i == cur then Zombie else if i == next then Running else s
    case Sleep => if i == cur then Sleeping else if i == next then Running else s
  }

  /** Every task's state after any operation: `task_sleep` leaves the caller SLEEPING and `task_exit` leaves it
      dead, a caller that gives way is READY again, the task switched to is RUNNING, `task_wake` makes a
      sleeper READY, and no other task changes. A created task is READY and last, unless there are 64. */
  lemma StepStates(t: Tasks, op: Op)
    requires Valid(t)
    ensures var r, n := Step(t, op), |t.states|;
      && |r.states| == (if op == Create && n < 64 then n + 1 else n)
      && (|r.states| > n ==> r.states[n] == Ready)
      && (op == Sleep ==> r.states[t.cur] == Sleeping) && (op == Exit ==> r.states[t.cur] == Zombie)
      && forall i :: 0 <= i < n ==> r.states[i] == StateAfter(op, t.cur, r.cur, i, t.states[i])
  {
    hide Pick;
  }

  /** The task current after any operation. */
  lemma StepCurrent(t: Tasks, op: Op)
    requires Valid(t)
    ensures op == Create || op.Wake? ==> Step(t, op).cur == t.cur
    ensures op == Yield || op == Exit || op == Sleep ==> NextInOrder(t, Step(t, op).cur)
  {
    hide Pick, NextInOrder;
    PickSpec(t);
    PickPast(t, Zombie);
    PickPast(t, Sleeping);
  }

  /** The state of the current task itself does not matter. */
  lemma PickPast(t: Tasks, s: TaskState)
    requires Valid(t)
    ensures NextInOrder(t, Pick(t.(states := t.states[t.cur := s])))
  {
    hide Pick;
    var u := t.(states := t.states[t.cur := s]);
    PickSpec(u);
    assert forall k :: 0 <= k < |t.states| && k != t.cur ==> u.states[k] == t.states[k];
  }

  /** A switch goes to a task that was READY and makes it RUNNING: never to a sleeping or dead one. */
  lemma SwitchesOnlyToReady(t: Tasks, op: Op)
    requires Valid(t) && OneRunning(t)
    ensures var r := Step(t, op);
      r.cur != t.cur ==> r.cur < |t.states| && t.states[r.cur] == Ready && r.states[r.cur] == Running
  {
    hide Step;
    StepStates(t, op);
    StepCurrent(t, op);
  }

  /** A dead task comes back exactly when it is current and calls `task_sleep`. */
  lemma ZombieRevived(t: Tasks, op: Op, i: nat)
    requires Valid(t) && i < |t.states| && t.states[i] == Zombie
    ensures i < |Step(t, op).states|
    ensures Step(t, op).states[i] != Zombie <==> op == Sleep && i == t.cur
  {
    hide Step;
    StepStates(t, op);
    StepCurrent(t, op);
  }

  /** A sleeper sleeps on exactly unless it is woken, or exits while still current. */
  lemma SleeperStays(t: Tasks, op: Op, i: nat)
    requires Valid(t) && i < |t.states| && t.states[i] == Sleeping
    ensures i < |Step(t, op).states|
    ensures Step(t, op).states[i] == Sleeping <==> op != Wake(i) && !(op == Exit && i == t.cur)
    ensures i != t.cur ==> Step(t, op).cur != i
  {
    hide Step;
    StepStates(t, op);
    StepCurrent(t, op);
  }

  // ------------------------------------------------------------------ runs

  ghost predicate RunFrom(states: seq<Tasks>, ops: seq<Op>) {
    && |states| == |ops| + 1
    && (forall i :: 0 <= i < |states| ==> Valid(states[i]))
    && forall i, j :: 0 <= i < |ops| && j == i + 1 ==> states[j] == Step(states[i], ops[i])
  }

  /** In every state of every run from boot, a RUNNING task is the current one. */
  lemma {:induction false} RunInvariant(states: seq<Tasks>, ops: seq<Op>, k: nat)
    requires RunFrom(states, ops) && states[0] == BOOTED && k < |states|
    ensures OneRunning(states[k])
    decreases k
  {
    if k > 0 {
      RunInvariant(states, ops, k - 1);
      assert states[k] == Step(states[k - 1], ops[k - 1]);
      StepInvariant(states[k - 1], ops[k - 1]);
    }
  }

  /** Once dead, always dead, over any run in which no dead task calls `task_sleep`. */
  lemma {:induction false} ZombieForever(states: seq<Tasks>, ops: seq<Op>, i: nat, j: nat, task: nat)
    requires RunFrom(states, ops) && i <= j < |states|
    requires task < |states[i].states| && states[i].states[task] == Zombie
    requires forall k :: i <= k < j ==> !(ops[k] == Sleep && states[k].states[states[k].cur] == Zombie)
    ensures task < |states[j].states| && states[j].states[task] == Zombie
    decreases j
  {
    if i < j {
      ZombieForever(states, ops, i, j - 1, task);
      assert states[j] == Step(states[j - 1], ops[j - 1]);
      ZombieRevived(states[j - 1], ops[j - 1], task);
    }
  }

  /** Over any run a sleeper other than the current task sleeps on and is not current again before it is
      woken. */
  lemma {:induction false} SleepsUntilWoken(states: seq<Tasks>, ops: seq<Op>, i: nat, j: nat, task: nat)
    requires RunFrom(states, ops) && i <= j < |states|
    requires task < |states[i].states| && states[i].states[task] == Sleeping && states[i].cur != task
    requires forall k :: i <= k < j ==> ops[k] != Wake(task)
    ensures task < |states[j].states| && states[j].states[task] == Sleeping && states[j].cur != task
    decreases j
  {
    if i < j {
      SleepsUntilWoken(states, ops, i, j - 1, task);
      assert states[j] == Step(states[j - 1], ops[j - 1]);
      SleeperStays(states[j - 1], ops[j - 1], task);
    }
  }
}
