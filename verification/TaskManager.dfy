/** The task table of kernel/task.c: a fixed array of slots threaded by a `next` list. A pointer to a
    task is the index of its slot; NONE is the null pointer. */
module TaskTable {
  import opened Machine
  import opened Schedule
  import opened RoundRobin

  const NONE := -1
  const INVALID_PID := -1

  const NAME_SIZE := 16

  datatype Slot = Slot(
    pid: int, state: TaskState, priority: int, eip: Word, name: seq<Byte>, parentPid: int, next: int)

  const NO_NAME: seq<Byte> := [0, 0, 0, 0, 0, 0, 0, 0, 0, 0, 0, 0, 0, 0, 0, 0]

  /** A slot of zeroed static storage: pid 0, state 0 (RUNNING), null link. */
  const ZEROED := Slot(0, Running, 0, 0, NO_NAME, 0, NONE)

  const KERNEL_NAME: seq<Byte> := [107, 101, 114, 110, 101, 108] // "kernel"

  /** The characters of a name that fit: at most fifteen. */
  function Fitting(s: seq<Byte>): (r: seq<Byte>)
    ensures |r| == (if |s| < 16 then |s| else 15) && r <= s
  {
    if |s| < NAME_SIZE then s else s[..NAME_SIZE - 1]
  }

  /** A slot's name after `s` is copied over it: the last byte is cleared, but not the one after `s`. */
  function Named(name: seq<Byte>, s: seq<Byte>): (r: seq<Byte>)
    requires |name| == NAME_SIZE
    ensures |r| == NAME_SIZE
  {
    Fitting(s) + name[|Fitting(s)|..NAME_SIZE - 1] + [0]
  }

  /** The sixteen bytes: the first fifteen characters, the old name behind them, and a NUL in the last place. */
  lemma NamedBytes(name: seq<Byte>, s: seq<Byte>)
    requires |name| == 16
    ensures var r := Named(name, s);
      r[15] == 0 && forall i :: 0 <= i < 15 ==> r[i] == if i < |s| then s[i] else name[i]
  {
  }

  /** The name reads back, cut to fifteen characters, exactly if it fills the slot or the old name had a
      NUL where it ends; otherwise the rest of the old name shows. */
  lemma NameReadsBack(name: seq<Byte>, s: seq<Byte>)
    requires |name| == NAME_SIZE && 0 !in s
    ensures CString(Named(name, s)) == Fitting(s) <==> |Fitting(s)| == NAME_SIZE - 1 || name[|Fitting(s)|] == 0
  {
    hide CString;
    var f, r := Fitting(s), Named(name, s);
    assert 0 !in f && r[|f|] == if |f| == NAME_SIZE - 1 then 0 else name[|f|];
    assert r == f + r[|f|..];
    CStringCut(f, r[|f|..]);
  }

  /** What the copy loop has made of the name when it stops at `i`. */
  lemma NamedAfter(name: seq<Byte>, str: seq<Byte>, i: nat)
    requires |name| == NAME_SIZE && i < NAME_SIZE && i < |str| && 0 !in str[..i]
    requires i == NAME_SIZE - 1 || str[i] == 0
    ensures Named(name, CString(str)) == (str[..i] + name[i..])[NAME_SIZE - 1 := 0]
  {
    hide CString, Fitting;
    var f := str[..i];
    assert str == f + str[i..];
    CStringCut(f, str[i..]);
    FittingIs(f, CString(str[i..]));
    LastCleared(f, name);
  }

  lemma FittingIs(f: seq<Byte>, rest: seq<Byte>)
    requires |f| < NAME_SIZE && (|f| == NAME_SIZE - 1 || f + rest == f)
    ensures Fitting(f + rest) == f
  {
  }

  lemma LastCleared(f: seq<Byte>, name: seq<Byte>)
    requires |name| == NAME_SIZE && |f| < NAME_SIZE
    ensures (f + name[|f|..])[NAME_SIZE - 1 := 0] == f + name[|f|..NAME_SIZE - 1] + [0]
  {
  }

  lemma NulAhead(str: seq<Byte>, i: nat)
    requires 0 in str && i < |str| && 0 !in str[..i] && str[i] != 0
    ensures i + 1 < |str|
  {
    forall j | 0 <= j < i ensures str[j] != 0 {
      assert str[..i][j] == str[j];
    }
    var k :| 0 <= k < |str| && str[k] == 0;
  }

  lemma {:induction false} CStringCut(f: seq<Byte>, rest: seq<Byte>)
    requires 0 !in f && rest != []
    ensures CString(f + rest) == f + CString(rest)
    ensures CString(f + rest) == f <==> rest[0] == 0
    decreases |f|
  {
    if f == [] {
      assert f + rest == rest;
    } else {
      assert (f + rest)[1..] == f[1..] + rest;
      CStringCut(f[1..], rest);
      assert f == [f[0]] + f[1..];
    }
  }

  function States(s: seq<Slot>): (r: seq<TaskState>)
    ensures |r| == |s| && forall i :: 0 <= i < |s| ==> r[i] == s[i].state
  {
    seq(|s|, i requires 0 <= i < |s| => s[i].state)
  }

  /** Slots differ in their states only. */
  ghost predicate OnlyStates(s: seq<Slot>, r: seq<Slot>) {
    |s| == |r| && forall k :: 0 <= k < |s| ==> r[k] == s[k].(state := r[k].state)
  }

  class TaskManager {
    const tasks: array<Slot>
    var current: int
    var taskList: int
    var nextPid: int
    var taskCount: int

    /** Before `init_task_manager`: zeroed storage, null pointers. */
    ghost predicate Boot()
      reads this, tasks
    {
      && tasks.Length == MAX_TASKS && taskCount == 0 && taskList == NONE && current == NONE && nextPid >= 1
      && forall k :: 0 <= k < MAX_TASKS ==> tasks[k] == ZEROED
    }

    /** Pid of the task in slot `k`. */
    ghost function PidOf(k: int): (pid: int)
      reads this
    {
      if k == 0 then 0 else nextPid - taskCount + k
    }

    /** After it: the list is slots 0, 1, ... in order, with increasing pids; the other slots are blank. */
    ghost predicate Up()
      reads this, tasks
    {
      && tasks.Length == MAX_TASKS && 1 <= taskCount <= MAX_TASKS && taskList == 0 && 0 <= current < taskCount
      && nextPid >= taskCount
      && (forall k :: 0 <= k < taskCount ==>
            tasks[k].pid == PidOf(k) && tasks[k].next == if k + 1 < taskCount then k + 1 else NONE)
      && (forall k :: taskCount <= k < MAX_TASKS ==> Blank(tasks[k]))
      && forall k :: 0 <= k < MAX_TASKS ==> |tasks[k].name| == NAME_SIZE
    }

    static predicate Blank(slot: Slot) {
      slot.pid == INVALID_PID && slot.state == Zombie && slot.next == NONE
    }

    /** No blank slot has the name of an earlier task left in it. */
    ghost predicate NamesClear()
      requires tasks.Length == MAX_TASKS
      reads this, tasks
    {
      forall k :: 0 <= taskCount <= k < MAX_TASKS ==> tasks[k].name == NO_NAME
    }

    ghost predicate Valid()
      reads this, tasks
    {
      Boot() || Up()
    }

    ghost function View(): (t: Tasks)
      requires Up()
      reads this, tasks
      ensures Schedule.Valid(t)
    {
      Tasks(States(tasks[..taskCount]), current)
    }

    constructor ()
      ensures Boot() && nextPid == 1 && fresh(tasks)
    {
      tasks := new Slot[MAX_TASKS](_ => ZEROED);
      current, taskList, nextPid, taskCount := NONE, NONE, 1, 0;
    }

    /** The name loop: up to fifteen characters before the NUL, then a NUL in the last byte. */
    method CopyName(slot: int, str: seq<Byte>)
      requires 0 <= slot < tasks.Length && |tasks[slot].name| == NAME_SIZE && 0 in str
      modifies tasks
      ensures tasks[slot] == old(tasks[slot]).(name := Named(old(tasks[slot].name), CString(str)))
      ensures forall k :: 0 <= k < tasks.Length && k != slot ==> tasks[k] == old(tasks[k])
    {
      hide CString, Named;
      ghost var before := tasks[slot].name;
      var i := 0;
      while i < NAME_SIZE - 1 && str[i] != 0
        invariant 0 <= i <= NAME_SIZE - 1 && i < |str| && 0 !in str[..i]
        invariant tasks[slot] == old(tasks[slot]).(name := str[..i] + before[i..])
        invariant forall k :: 0 <= k < tasks.Length && k != slot ==> tasks[k] == old(tasks[k])
      {
        assert str[..i + 1] == str[..i] + [str[i]];
        NulAhead(str, i);
        assert (str[..i] + before[i..])[i := str[i]] == str[..i + 1] + before[i + 1..];
        tasks[slot] := tasks[slot].(name := tasks[slot].name[i := str[i]]);
        i := i + 1;
      }
      NamedAfter(before, str, i);
      tasks[slot] := tasks[slot].(name := tasks[slot].name[NAME_SIZE - 1 := 0]);
    }

    /** `init_task_manager`: every slot is blanked and the kernel task put in slot 0. `next_pid` and old
        names stay. */
    method Init()
      requires Valid()
      modifies this, tasks
      ensures Up() && View() == BOOTED && taskCount == 1 && nextPid == old(nextPid)
      ensures tasks[0] ==
        Slot(0, Running, 0, old(tasks[0].eip), Named(old(tasks[0].name), KERNEL_NAME), INVALID_PID, NONE)
      ensures forall k :: 0 < k < MAX_TASKS ==>
        tasks[k] == old(tasks[k]).(pid := INVALID_PID, state := Zombie, next := NONE)
      ensures old(Boot()) ==> NamesClear()
    {
      for i := 0 to MAX_TASKS
        modifies tasks
        invariant forall k :: 0 <= k < i ==>
          tasks[k] == old(tasks[k]).(pid := INVALID_PID, state := Zombie, next := NONE)
        invariant forall k :: i <= k < MAX_TASKS ==> tasks[k] == old(tasks[k])
      {
        tasks[i] := tasks[i].(pid := INVALID_PID, state := Zombie, next := NONE);
      }
      tasks[0] := tasks[0].(pid := 0, state := Running, priority := 0, parentPid := INVALID_PID);
      CStringIs(KERNEL_NAME);
      CopyName(0, KERNEL_NAME + [0]);
      current, taskList, taskCount := 0, 0, 1;
    }

    /** The slot search: the first blank slot, if any. */
    method FindSlot() returns (r: int)
      requires Valid()
      ensures r == if Up() && taskCount < MAX_TASKS then taskCount else NONE
    {
      var i := 0;
      assert Up() && taskCount < MAX_TASKS ==> Blank(tasks[taskCount]);
      while i < MAX_TASKS
        invariant 0 <= i <= MAX_TASKS
        invariant forall k :: 0 <= k < i ==> tasks[k].pid != INVALID_PID
      {
        if tasks[i].pid == INVALID_PID {
          return i;
        }
        i := i + 1;
      }
      return NONE;
    }

    /** `create_task`: finds no slot before `Init`, or when 64 tasks exist. */
    method CreateTask(name: seq<Byte>, entryPoint: Word) returns (r: int)
      requires Valid() && 0 in name
      modifies this, tasks
      ensures old(Boot()) ==> Boot() && r == NONE && nextPid == old(nextPid)
      ensures old(Up()) ==> Up() && View() == Step(old(View()), Create)
      ensures old(Up()) ==> nextPid - taskCount == old(nextPid - taskCount)
      ensures old(Up()) ==> r == if old(taskCount) < MAX_TASKS then old(taskCount) else NONE
      ensures old(Up()) && r != NONE ==>
        tasks[r] == Slot(old(nextPid), Ready, 10, entryPoint, Named(old(tasks[taskCount].name), CString(name)),
                         old(tasks[current].pid), NONE)
      ensures forall k :: 0 <= k < MAX_TASKS && k != r ==> tasks[k] == old(tasks[k]).(next := tasks[k].next)
      ensures old(Up()) && old(NamesClear()) ==>
        NamesClear() && (r != NONE ==> CString(tasks[r].name) == Fitting(CString(name)))
    {
      if taskCount >= MAX_TASKS {
        return NONE;
      }
      var newTask := FindSlot();
      if newTask == NONE {
        return NONE;
      }
      NameReadsBack(tasks[newTask].name, CString(name));
      Append(newTask, name, entryPoint);
      return newTask;
    }

    /** The walk to the end of the list. */
    method LastTask() returns (last: int)
      requires tasks.Length == MAX_TASKS && 1 <= taskCount <= MAX_TASKS && taskList == 0
      requires forall k :: 0 <= k < taskCount ==> tasks[k].next == if k + 1 < taskCount then k + 1 else NONE
      ensures last == taskCount - 1
    {
      last := taskList;
      while tasks[last].next != NONE
        invariant 0 <= last < taskCount
        decreases taskCount - last
      {
        last := tasks[last].next;
      }
    }

    /** Fills in the slot and links it behind the last task. */
    method Append(newTask: int, name: seq<Byte>, entryPoint: Word)
      requires Up() && taskCount < MAX_TASKS && newTask == taskCount && 0 in name
      modifies this`nextPid, this`taskCount, tasks
      ensures Up() && taskCount == old(taskCount) + 1 && nextPid == old(nextPid) + 1
      ensures tasks[newTask] ==
        Slot(old(nextPid), Ready, 10, entryPoint, Named(old(tasks[newTask].name), CString(name)),
             old(tasks[current].pid), NONE)
      ensures View() == Step(old(View()), Create)
      ensures forall k :: 0 <= k < MAX_TASKS && k != newTask ==> tasks[k] == old(tasks[k]).(next := tasks[k].next)
    {
      hide CString, Named;
      ghost var before := View();
      tasks[newTask] := tasks[newTask].(pid := nextPid, state := Ready, priority := 10,
        parentPid := if current != NONE then tasks[current].pid else INVALID_PID, eip := entryPoint);
      CopyName(newTask, name);
      nextPid := nextPid + 1;
      if taskList != NONE {
        var last := LastTask();
        tasks[last] := tasks[last].(next := newTask);
      } else {
        assert false; // an empty list means zeroed slots, none of which is free
      }
      taskCount := taskCount + 1;
      assert View().states == before.states + [Ready];
    }

    /** The circular scan of `schedule`, from a task that is not the tail. */
    method NextRunnable() returns (nextTask: int)
      requires Up() && tasks[current].next != NONE
      ensures nextTask == Pick(View())
    {
      ghost var t := View();
      nextTask := tasks[current].next;
      while nextTask != NONE && tasks[nextTask].state != Ready && tasks[nextTask].state != Running
        invariant 0 <= nextTask < taskCount && nextTask != current
        invariant Scan(t.states, t.cur, nextTask) == Pick(t)
        decreases Distance(taskCount, nextTask, current)
      {
        nextTask := tasks[nextTask].next;
        if nextTask == NONE {
          nextTask := taskList;
        }
        if nextTask == current {
          break;
        }
      }
    }

    /** `schedule`. */
    method Reschedule()
      requires Valid()
      modifies this`current, tasks
      ensures old(Boot()) ==> Boot()
      ensures old(Up()) ==> Up() && View() == Scheduled(old(View()))
      ensures OnlyStates(old(tasks[..]), tasks[..])
    {
      if current == NONE || tasks[current].next == NONE {
        return;
      }
      hide Scan;
      var nextTask := NextRunnable();
      if nextTask != NONE && nextTask != current {
        SwitchTo(nextTask);
      }
    }

    /** The state changes of a switch. */
    method SwitchTo(nextTask: int)
      requires Up() && 0 <= nextTask < taskCount && nextTask != current && nextTask == Pick(View())
      modifies this`current, tasks
      ensures Up() && View() == Scheduled(old(View()))
      ensures OnlyStates(old(tasks[..]), tasks[..])
    {
      hide Pick;
      ghost var t := View();
      var prevTask := current;
      current := nextTask;
      tasks[current] := tasks[current].(state := Running);
      if tasks[prevTask].state == Running {
        tasks[prevTask] := tasks[prevTask].(state := Ready);
      }
      assert View().states == Scheduled(t).states;
    }

    /** `task_exit`. */
    method TaskExit()
      requires Valid()
      modifies this`current, tasks
      ensures old(Boot()) ==> Boot()
      ensures old(Up()) ==> Up() && View() == Step(old(View()), Exit)
      ensures OnlyStates(old(tasks[..]), tasks[..])
    {
      if current != NONE {
        ghost var t := View();
        tasks[current] := tasks[current].(state := Zombie);
        assert View().states == t.states[t.cur := Zombie];
        Reschedule();
      }
    }

    /** `task_sleep`; the tick count is not used. */
    method TaskSleep()
      requires Valid()
      modifies this`current, tasks
      ensures old(Boot()) ==> Boot()
      ensures old(Up()) ==> Up() && View() == Step(old(View()), Sleep)
      ensures OnlyStates(old(tasks[..]), tasks[..])
    {
      if current != NONE {
        ghost var t := View();
        tasks[current] := tasks[current].(state := Sleeping);
        assert View().states == t.states[t.cur := Sleeping];
        Reschedule();
      }
    }

    /** `task_wake` of any slot of the table, in the list or not, or of no task. */
    method TaskWake(task: int)
      requires Valid() && (task == NONE || 0 <= task < MAX_TASKS)
      modifies tasks
      ensures old(Boot()) ==> Boot()
      ensures old(Up()) ==> Up() && View() == if task == NONE then old(View()) else Step(old(View()), Wake(task))
      ensures OnlyStates(old(tasks[..]), tasks[..])
    {
      if task != NONE && tasks[task].state == Sleeping {
        ghost var t := View();
        tasks[task] := tasks[task].(state := Ready);
        assert View().states == t.states[task := Ready];
      }
    }

    /** `find_task`: a walk along the list that agrees with indexing the table by pid. */
    method FindTask(pid: int) returns (r: int)
      requires Valid()
      ensures Boot() ==> r == NONE
      ensures Up() && r != NONE ==> 0 <= r < taskCount && tasks[r].pid == pid
      ensures Up() && r == NONE ==> forall k :: 0 <= k < taskCount ==> tasks[k].pid != pid
      ensures Up() && nextPid == taskCount ==> r == if 0 <= pid < taskCount then pid else NONE
    {
      var task := taskList;
      while task != NONE
        invariant Boot() ==> task == NONE
        invariant Up() ==> task == NONE || 0 <= task < taskCount
        invariant Up() ==> forall k :: 0 <= k < (if task == NONE then taskCount else task) ==> tasks[k].pid != pid
        decreases if task == NONE then 0 else taskCount - task
      {
        if tasks[task].pid == pid {
          return task;
        }
        task := tasks[task].next;
      }
      if Up() && 0 <= pid < taskCount && nextPid == taskCount {
        assert tasks[pid].pid != pid;
      }
      return NONE;
    }

    /** The order in `kernel_main`: the idle task is requested too early and gets no slot, so the pids
        handed out later are the slot numbers. */
    method KernelMain(idleEntry: Word, demoEntry: Word) returns (idle: int, demo: int)
      requires Boot() && nextPid == 1
      modifies this, tasks
      ensures idle == NONE && demo == 1
      ensures Up() && nextPid == taskCount == 2 && View() == Tasks([Running, Ready], 0)
      ensures tasks[0].pid == 0 && tasks[1].pid == 1 && tasks[1].eip == demoEntry
      ensures NamesClear() && CString(tasks[1].name) == DEMO_NAME
    {
      idle := CreateTask([105, 100, 108, 101, 0], idleEntry); // "idle"
      Init();
      CStringIs(DEMO_NAME);
      demo := CreateTask(DEMO_NAME + [0], demoEntry);
    }
  }

  const DEMO_NAME: seq<Byte> := [100, 101, 109, 111, 95, 116, 97, 115, 107] // "demo_task"

  // ------------------------------------------------------------------ the timer

  /** Tasks after `n` timer interrupts counted from `ticks`: every tenth one calls `schedule`. */
  function Ticked(t: Tasks, ticks: Word, n: nat): (r: Tasks)
    requires Schedule.Valid(t)
    decreases n
  {
    if n == 0 then t else
      var k := Add32(ticks, 1);
      Ticked(if k % 10 == 0 then Scheduled(t) else t, k, n - 1)
  }

  /** Multiples of ten a 32-bit counter shows in its first `r` increments from 0. Each full cycle shows
      429496729 of them and the 0 it wraps to. */
  function Due(r: nat): (n: nat) {
    (r / WORD_RANGE) * 429496730 + (r % WORD_RANGE) / 10
  }

  lemma DueAt(q: nat, m: nat)
    requires m < WORD_RANGE
    ensures Due(q * WORD_RANGE + m) == q * 429496730 + m / 10
    ensures Wrap(q * WORD_RANGE + m) == m
  {
    var r := q * WORD_RANGE + m;
    assert r / WORD_RANGE == q && r % WORD_RANGE == m;
  }

  /** The count rises by one exactly when the counter shows a multiple of ten. */
  lemma DueNext(r: nat)
    ensures Due(r + 1) == Due(r) + if Wrap(r + 1) % 10 == 0 then 1 else 0
  {
    hide Due, Wrap;
    var q, m := r / WORD_RANGE, r % WORD_RANGE;
    assert r == q * WORD_RANGE + m;
    DueAt(q, m);
    if m + 1 < WORD_RANGE {
      DueAt(q, m + 1);
    } else {
      DueAt(q + 1, 0);
    }
  }

  /** `n` interrupts make exactly the calls due in that stretch, wraps of the counter included, whatever
      the tasks' states and the counter's position `raw` since boot. */
  lemma {:induction false} TicksAreTurns(t: Tasks, raw: nat, n: nat)
    requires Schedule.Valid(t)
    ensures Due(raw) <= Due(raw + n)
    ensures Ticked(t, Wrap(raw), n) == Turns(t, Due(raw + n) - Due(raw))
    decreases n
  {
    hide Scheduled, Due, Wrap;
    if n > 0 {
      DueNext(raw);
      WrapCounts(raw);
      if Wrap(raw + 1) % 10 == 0 {
        assert Turns(t, 1) == Scheduled(t) by { assert Turns(t, 0) == t; }
        TicksAreTurns(Scheduled(t), raw + 1, n - 1);
        TurnsAdd(t, 1, Due(raw + n) - Due(raw + 1));
      } else {
        TicksAreTurns(t, raw + 1, n - 1);
      }
    }
  }
}
