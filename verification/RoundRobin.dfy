/** Repeated `schedule` calls with no other task operation in between: who gets the processor. */
module RoundRobin {
  import opened Schedule

  /** How many tasks are runnable. */
  function Count(s: seq<TaskState>): (n: nat) {
    if s == [] then 0 else Count(s[..|s| - 1]) + (if Runnable(s[|s| - 1]) then 1 else 0)
  }

  /** How many runnable tasks come before position `i`. */
  function Rank(s: seq<TaskState>, i: nat): (n: nat)
    requires i <= |s|
  {
    Count(s[..i])
  }

  lemma RankNext(s: seq<TaskState>, i: nat)
    requires i < |s|
    ensures Rank(s, i + 1) == Rank(s, i) + if Runnable(s[i]) then 1 else 0
  {
    assert s[..i + 1][..i] == s[..i];
  }

  lemma {:induction false} RankMonotone(s: seq<TaskState>, i: nat, j: nat)
    requires i <= j <= |s|
    ensures Rank(s, i) <= Rank(s, j) <= Rank(s, i) + (j - i)
    ensures (forall k :: i <= k < j ==> !Runnable(s[k])) ==> Rank(s, i) == Rank(s, j)
    ensures i < j && Runnable(s[i]) ==> Rank(s, i) < Rank(s, j)
    decreases j
  {
    if i < j {
      RankNext(s, j - 1);
      RankMonotone(s, i, j - 1);
    }
  }

  /** Runnable tasks are told apart by their rank. */
  lemma RankInjective(s: seq<TaskState>, i: nat, j: nat)
    requires i < |s| && j < |s| && Runnable(s[i]) && Runnable(s[j]) && Rank(s, i) == Rank(s, j)
    ensures i == j
  {
    if i < j {
      RankMonotone(s, i, j);
    } else if j < i {
      RankMonotone(s, j, i);
    }
  }

  lemma {:induction false} RankSame(s: seq<TaskState>, r: seq<TaskState>, i: nat)
    requires |s| == |r| && i <= |s|
    requires forall k :: 0 <= k < |s| ==> Runnable(s[k]) == Runnable(r[k])
    ensures Rank(s, i) == Rank(r, i)
    decreases i
  {
    if i > 0 {
      RankNext(s, i - 1);
      RankNext(r, i - 1);
      RankSame(s, r, i - 1);
    }
  }

  // ------------------------------------------------------------------ one turn

  /** The current task is RUNNING and no other is: where a run of `schedule` calls starts. */
  ghost predicate Settled(t: Tasks) {
    Valid(t) && OneRunning(t) && t.states[t.cur] == Running
  }

  /** The states after the processor has moved from `c` to `j`. */
  function Moved(s: seq<TaskState>, c: nat, j: nat): (r: seq<TaskState>)
    requires c < |s| && j < |s|
  {
    s[c := Ready][j := Running]
  }

  function NextRank(total: nat, rank: nat): (r: nat) {
    if rank + 1 < total then rank + 1 else 0
  }

  lemma TurnMoves(t: Tasks)
    requires Settled(t)
    ensures Settled(Scheduled(t)) && |Scheduled(t).states| == |t.states|
    ensures Scheduled(t).states == Moved(t.states, t.cur, Scheduled(t).cur)
    ensures Runnable(t.states[Scheduled(t).cur])
  {
    PickSpec(t);
  }

  /** Away from the tail, a turn goes to the runnable task of the next rank, the last handing over to the
      first. */
  lemma TurnRank(t: Tasks)
    requires Settled(t) && t.cur + 1 < |t.states|
    ensures Rank(t.states, Pick(t)) == NextRank(Rank(t.states, |t.states|), Rank(t.states, t.cur))
  {
    hide Pick, Rank;
    var s, c, n, j := t.states, t.cur, |t.states|, Pick(t);
    PickSpec(t);
    RankNext(s, c);
    if c < j {
      assert forall k :: c < k < j ==> !Runnable(s[k]) by {
        assert forall k :: c < k < j ==> 0 < Distance(n, c, k) < Distance(n, c, j);
      }
      RankMonotone(s, c + 1, j);
      RankMonotone(s, j, n);
    } else {
      assert forall k :: c < k < n ==> !Runnable(s[k]) by {
        assert forall k :: c < k < n && j < c ==> 0 < Distance(n, c, k) < Distance(n, c, j);
      }
      assert forall k :: 0 <= k < j ==> !Runnable(s[k]) by {
        assert forall k :: 0 <= k < j && j < c ==> 0 < Distance(n, c, k) < Distance(n, c, j);
      }
      RankMonotone(s, c + 1, n);
      RankMonotone(s, 0, j);
      EmptyRank(s);
    }
  }

  // ------------------------------------------------------------------ many turns

  /** The tasks after `k` calls of `schedule`, from any state. */
  function Turns(t: Tasks, k: nat): (r: Tasks)
    requires Valid(t)
    ensures Valid(r)
  {
    if k == 0 then t else Scheduled(Turns(t, k - 1))
  }

  lemma {:induction false} TurnsSettled(t: Tasks, k: nat)
    requires Settled(t)
    ensures Settled(Turns(t, k))
  {
    if k > 0 {
      TurnsSettled(t, k - 1);
      TurnMoves(Turns(t, k - 1));
    }
  }

  lemma {:induction false} TurnsMove(t: Tasks, k: nat)
    requires Settled(t)
    ensures |Turns(t, k).states| == |t.states|
    ensures Turns(t, k).states == Moved(t.states, t.cur, Turns(t, k).cur)
    ensures Runnable(t.states[Turns(t, k).cur])
  {
    hide Scheduled;
    if k == 0 {
      assert t.states == Moved(t.states, t.cur, t.cur);
    } else {
      TurnsMove(t, k - 1);
      TurnsSettled(t, k - 1);
      TurnMoves(Turns(t, k - 1));
    }
  }

  /** Runnability never changes, so ranks can be taken in the starting state throughout. */
  lemma TurnsRank(t: Tasks, k: nat)
    requires Settled(t)
    ensures |Turns(t, k).states| == |t.states| == |Turns(t, k + 1).states|
    ensures var s, n, c := t.states, |t.states|, Turns(t, k).cur;
      && (c + 1 == n ==> Turns(t, k + 1) == Turns(t, k))
      && (c + 1 < n ==> Rank(s, Turns(t, k + 1).cur) == NextRank(Rank(s, n), Rank(s, c)))
  {
    var u := Turns(t, k);
    TurnsSettled(t, k);
    TurnsMove(t, k);
    TurnsMove(t, k + 1);
    if u.cur + 1 < |u.states| {
      TurnRank(u);
      RankSame(t.states, u.states, |t.states|);
      RankSame(t.states, u.states, u.cur);
      RankSame(t.states, u.states, Pick(u));
    } else {
      PickSpec(u);
    }
  }

  predicate TailRunnable(t: Tasks)
    requires t.states != []
  {
    Runnable(t.states[|t.states| - 1])
  }

  /** Number of runnable tasks. */
  function Total(t: Tasks): (r: nat) {
    Rank(t.states, |t.states|)
  }

  /** Position of `current_task` among the runnable tasks. */
  function Start(t: Tasks): (r: nat)
    requires t.cur < |t.states|
  {
    Rank(t.states, t.cur)
  }

  lemma StartBelowTotal(t: Tasks, i: nat)
    requires i < |t.states| && Runnable(t.states[i])
    ensures Rank(t.states, i) < Total(t)
  {
    RankMonotone(t.states, i, |t.states|);
  }

  lemma TailRank(t: Tasks, i: nat)
    requires i < |t.states| && Runnable(t.states[i])
    ensures TailRunnable(t) ==> (i + 1 == |t.states| <==> Rank(t.states, i) + 1 == Total(t))
    ensures !TailRunnable(t) ==> i + 1 < |t.states|
  {
    var n := |t.states|;
    RankNext(t.states, n - 1);
    if i + 1 < n {
      RankMonotone(t.states, i, n - 1);
    }
  }

  // ------------------------------------------------------------------ tail not runnable: round robin

  lemma {:induction false} RotationRank(t: Tasks, k: nat)
    requires Settled(t) && !TailRunnable(t) && k <= Total(t)
    ensures Turns(t, k).cur < |t.states|
    ensures Rank(t.states, Turns(t, k).cur) == if Start(t) + k < Total(t) then Start(t) + k else Start(t) + k - Total(t)
  {
    hide Scheduled, Count;
    StartBelowTotal(t, t.cur);
    TurnsMove(t, k);
    if k > 0 {
      RotationRank(t, k - 1);
      TurnsMove(t, k - 1);
      TurnsRank(t, k - 1);
      TailRank(t, Turns(t, k - 1).cur);
    }
  }

  /** The turn, less than a full round away, at which task `j` runs. */
  function TurnOf(t: Tasks, j: nat): (k: int)
    requires t.cur < |t.states| && j < |t.states|
  {
    if Start(t) <= Rank(t.states, j) then Rank(t.states, j) - Start(t)
    else Rank(t.states, j) - Start(t) + Total(t)
  }

  /** With a tail that is not runnable, `schedule` is a fair rotation: within `Total` calls every runnable
      task runs exactly once, and after exactly `Total` calls the whole state is back. */
  lemma FullRotation(t: Tasks)
    requires Settled(t) && !TailRunnable(t)
    ensures Turns(t, Total(t)) == t
    ensures forall j, k :: 0 <= j < |t.states| && 0 <= k < Total(t) ==>
      (Turns(t, k).cur == j <==> Runnable(t.states[j]) && k == TurnOf(t, j))
    ensures forall j :: 0 <= j < |t.states| && Runnable(t.states[j]) ==> 0 <= TurnOf(t, j) < Total(t)
  {
    var r := Total(t);
    RotationRank(t, r);
    TurnsMove(t, r);
    StartBelowTotal(t, t.cur);
    RankInjective(t.states, Turns(t, r).cur, t.cur);
    assert Moved(t.states, t.cur, t.cur) == t.states;
    forall j, k | 0 <= j < |t.states| && 0 <= k < r
      ensures Turns(t, k).cur == j <==> Runnable(t.states[j]) && k == TurnOf(t, j)
    {
      RotationRank(t, k);
      TurnsMove(t, k);
      if Runnable(t.states[j]) {
        StartBelowTotal(t, j);
        if k == TurnOf(t, j) {
          RankInjective(t.states, Turns(t, k).cur, j);
        }
      }
    }
    forall j | 0 <= j < |t.states| && Runnable(t.states[j]) ensures 0 <= TurnOf(t, j) < r {
      StartBelowTotal(t, j);
    }
  }

  lemma {:induction false} TurnsAdd(t: Tasks, a: nat, b: nat)
    requires Valid(t)
    ensures Turns(t, a + b) == Turns(Turns(t, a), b)
    decreases b
  {
    hide Scheduled;
    if b > 0 {
      TurnsAdd(t, a, b - 1);
    }
  }

  /** The rotation repeats for ever. */
  lemma RotationPeriodic(t: Tasks, k: nat)
    requires Settled(t) && !TailRunnable(t)
    ensures Turns(t, Total(t) + k) == Turns(t, k)
  {
    FullRotation(t);
    TurnsAdd(t, Total(t), k);
  }

  // ------------------------------------------------------------------ tail runnable: absorption

  lemma {:induction false} AbsorptionRank(t: Tasks, k: nat)
    requires Settled(t) && TailRunnable(t)
    ensures Turns(t, k).cur < |t.states|
    ensures Rank(t.states, Turns(t, k).cur) == if Start(t) + k < Total(t) then Start(t) + k else Total(t) - 1
  {
    hide Scheduled, Count;
    StartBelowTotal(t, t.cur);
    TurnsMove(t, k);
    if k > 0 {
      AbsorptionRank(t, k - 1);
      TurnsMove(t, k - 1);
      TurnsRank(t, k - 1);
      TailRank(t, Turns(t, k - 1).cur);
    }
  }

  /** With a runnable tail the rotation ends there: the tail is reached after exactly as many calls as
      there are runnable tasks behind the current one, at most `n - 1`, and keeps the processor. */
  lemma TailAbsorbs(t: Tasks, k: nat)
    requires Settled(t) && TailRunnable(t)
    ensures Turns(t, k).cur + 1 == |t.states| <==> k >= Total(t) - 1 - Start(t)
    ensures Total(t) - 1 - Start(t) <= |t.states| - 1
  {
    AbsorptionRank(t, k);
    TurnsMove(t, k);
    TailRank(t, Turns(t, k).cur);
    StartBelowTotal(t, t.cur);
    RankMonotone(t.states, 0, |t.states|);
  }

  // ------------------------------------------------------------------ one turn each, exactly

  ghost predicate EventuallyRuns(t: Tasks, j: nat)
    requires Valid(t)
  {
    exists k: nat :: Turns(t, k).cur == j
  }

  /** Every runnable task gets at least one turn, the present one included. */
  ghost predicate EachRuns(t: Tasks)
    requires Valid(t)
  {
    forall j :: 0 <= j < |t.states| && Runnable(t.states[j]) ==> EventuallyRuns(t, j)
  }

  ghost predicate NoneBefore(t: Tasks)
    requires Valid(t)
  {
    forall i :: 0 <= i < t.cur ==> !Runnable(t.states[i])
  }

  /** With a runnable tail, exactly the runnable tasks from the current one on still get a turn. */
  lemma AbsorbedRuns(t: Tasks, j: nat)
    requires Settled(t) && TailRunnable(t) && j < |t.states| && Runnable(t.states[j])
    ensures EventuallyRuns(t, j) <==> t.cur <= j
  {
    StartBelowTotal(t, t.cur);
    if t.cur <= j {
      RankMonotone(t.states, t.cur, j);
      StartBelowTotal(t, j);
      var k := Rank(t.states, j) - Start(t);
      AbsorptionRank(t, k);
      TurnsMove(t, k);
      RankInjective(t.states, Turns(t, k).cur, j);
    } else {
      RankMonotone(t.states, j, t.cur);
      forall k: nat ensures Turns(t, k).cur != j {
        AbsorptionRank(t, k);
      }
    }
  }

  /** From a RUNNING current task, each runnable task gets a turn exactly when the tail is not runnable or no
      runnable task comes before the current one. */
  lemma SettledRuns(t: Tasks)
    requires Settled(t)
    ensures EachRuns(t) <==> !TailRunnable(t) || NoneBefore(t)
  {
    if !TailRunnable(t) {
      FullRotation(t);
      forall j | 0 <= j < |t.states| && Runnable(t.states[j]) ensures EventuallyRuns(t, j) {
        assert Turns(t, TurnOf(t, j)).cur == j;
      }
    } else {
      forall j | 0 <= j < |t.states| && Runnable(t.states[j]) ensures EventuallyRuns(t, j) <==> t.cur <= j {
        AbsorbedRuns(t, j);
      }
    }
  }

  /** Where `schedule` picks the current task again, it does so for ever. */
  lemma {:induction false} StuckForever(t: Tasks, k: nat)
    requires Valid(t) && Pick(t) == t.cur
    ensures Turns(t, k) == t
  {
    if k > 0 {
      StuckForever(t, k - 1);
    }
  }

  /** Where it picks another task, that task is RUNNING afterwards, whatever the state before, and no
      task became or ceased to be runnable. */
  lemma FirstTurnSettles(t: Tasks)
    requires Valid(t) && OneRunning(t) && Pick(t) != t.cur
    ensures var u := Scheduled(t);
      && Settled(u) && u.cur == Pick(t) && |u.states| == |t.states|
      && (forall i :: 0 <= i < |t.states| ==> Runnable(u.states[i]) == Runnable(t.states[i]))
  {
    PickSpec(t);
  }

  lemma RunsAfterOne(t: Tasks, j: nat)
    requires Valid(t)
    ensures EventuallyRuns(t, j) <==> t.cur == j || EventuallyRuns(Scheduled(t), j)
  {
    hide Scheduled;
    var u := Scheduled(t);
    assert Turns(t, 0).cur == t.cur && Turns(t, 1) == Scheduled(Turns(t, 0)) == u;
    if EventuallyRuns(t, j) && t.cur != j {
      var k: nat :| Turns(t, k).cur == j;
      TurnsAdd(t, 1, k - 1);
      assert Turns(u, k - 1).cur == j;
    }
    if EventuallyRuns(u, j) {
      var k: nat :| Turns(u, k).cur == j;
      TurnsAdd(t, 1, k);
      assert Turns(t, 1 + k).cur == j;
    }
  }

  /** A stuck processor serves every runnable task only if no other task is runnable. */
  lemma StuckRuns(t: Tasks)
    requires Valid(t) && Pick(t) == t.cur
    ensures EachRuns(t) <==> (t.cur + 1 < |t.states| && !TailRunnable(t)) || NoneBefore(t)
  {
    PickSpec(t);
    forall j | 0 <= j < |t.states| ensures EventuallyRuns(t, j) <==> j == t.cur {
      forall k: nat ensures Turns(t, k).cur == t.cur {
        StuckForever(t, k);
      }
      assert Turns(t, 0).cur == t.cur;
    }
  }

  /** A switch leaves the remaining turns to the state it leads to. */
  lemma SwitchRuns(t: Tasks)
    requires Valid(t) && OneRunning(t) && Pick(t) != t.cur
    ensures EachRuns(t) <==> !TailRunnable(t) || NoneBefore(t)
  {
    var u := Scheduled(t);
    PickSpec(t);
    FirstTurnSettles(t);
    SettledRuns(u);
    forall j | 0 <= j < |t.states| ensures EventuallyRuns(t, j) <==> t.cur == j || EventuallyRuns(u, j) {
      RunsAfterOne(t, j);
    }
    if TailRunnable(t) {
      SwitchedPast(t);
      forall j | 0 <= j < |t.states| && Runnable(t.states[j]) ensures EventuallyRuns(u, j) <==> u.cur <= j {
        AbsorbedRuns(u, j);
      }
    }
  }

  /** With a runnable tail a switch goes forward, past no runnable task. */
  lemma SwitchedPast(t: Tasks)
    requires Valid(t) && TailRunnable(t) && Pick(t) != t.cur
    ensures t.cur < Pick(t)
    ensures forall i :: t.cur < i < Pick(t) ==> !Runnable(t.states[i])
  {
    var n, j := |t.states|, Pick(t);
    PickSpec(t);
    assert forall i :: t.cur < i < j ==> 0 < Distance(n, t.cur, i) < Distance(n, t.cur, j);
  }

  /** From any state in which only the current task can be RUNNING, as in every state of every run, each
      runnable task gets at least one turn exactly if the current task is not the tail and the tail is not
      runnable, or no runnable task comes before the current one. */
  lemma EachRunsExactly(t: Tasks)
    requires Valid(t) && OneRunning(t)
    ensures EachRuns(t) <==> (t.cur + 1 < |t.states| && !TailRunnable(t)) || NoneBefore(t)
  {
    PickSpec(t);
    if Pick(t) == t.cur {
      StuckRuns(t);
    } else {
      SwitchRuns(t);
    }
  }

  // ------------------------------------------------------------------ round robin, exactly

  /** Task `j` runs at or after the `k`-th call. */
  ghost predicate RunsAgain(t: Tasks, j: nat, k: nat)
    requires Valid(t)
  {
    exists m: nat :: m >= k && Turns(t, m).cur == j
  }

  /** Round robin: every runnable task gets turn after turn, for ever. */
  ghost predicate Fair(t: Tasks)
    requires Valid(t)
  {
    forall j: nat, k: nat :: j < |t.states| && Runnable(t.states[j]) ==> RunsAgain(t, j, k)
  }

  ghost predicate NoneBeforeTail(t: Tasks) {
    forall i :: 0 <= i < |t.states| - 1 ==> !Runnable(t.states[i])
  }

  lemma TurnKeeps(t: Tasks)
    requires Valid(t) && OneRunning(t)
    ensures var u := Scheduled(t);
      && OneRunning(u) && |u.states| == |t.states|
      && (forall i :: 0 <= i < |t.states| ==> Runnable(u.states[i]) == Runnable(t.states[i]))
      && (u.cur == t.cur || Runnable(t.states[u.cur]))
  {
    PickSpec(t);
  }

  /** Calls of `schedule` keep at most the current task RUNNING, make no task runnable or not, and move the
      processor to runnable tasks only. */
  lemma {:induction false} TurnsKeep(t: Tasks, k: nat)
    requires Valid(t) && OneRunning(t)
    ensures var u := Turns(t, k);
      && OneRunning(u) && |u.states| == |t.states|
      && (forall i :: 0 <= i < |t.states| ==> Runnable(u.states[i]) == Runnable(t.states[i]))
      && (u.cur == t.cur || Runnable(t.states[u.cur]))
  {
    hide Scheduled;
    if k > 0 {
      TurnsKeep(t, k - 1);
      TurnKeeps(Turns(t, k - 1));
    }
  }

  lemma AgainThenEventually(t: Tasks, j: nat, k: nat)
    requires Valid(t) && RunsAgain(t, j, k)
    ensures EventuallyRuns(Turns(t, k), j)
  {
    hide Turns;
    var m: nat :| m >= k && Turns(t, m).cur == j;
    var d: nat := m - k;
    TurnsAdd(t, k, d);
    assert Turns(Turns(t, k), d).cur == j;
  }

  lemma EventuallyThenAgain(t: Tasks, j: nat, k: nat)
    requires Valid(t) && EventuallyRuns(Turns(t, k), j)
    ensures RunsAgain(t, j, k)
  {
    hide Turns;
    var d: nat :| Turns(Turns(t, k), d).cur == j;
    TurnsAdd(t, k, d);
    var m: nat := k + d;
    assert Turns(t, m).cur == j;
  }

  ghost predicate AlwaysEachRuns(t: Tasks)
    requires Valid(t)
  {
    forall k: nat :: EachRuns(Turns(t, k))
  }

  /** Being fair means giving each runnable task a turn from every later state. */
  lemma FairIsAlways(t: Tasks)
    requires Valid(t) && OneRunning(t)
    ensures Fair(t) <==> AlwaysEachRuns(t)
  {
    hide Turns, EventuallyRuns, RunsAgain;
    if Fair(t) {
      forall k: nat ensures EachRuns(Turns(t, k)) {
        TurnsKeep(t, k);
        forall j: nat | j < |t.states| && Runnable(t.states[j]) ensures EventuallyRuns(Turns(t, k), j) {
          AgainThenEventually(t, j, k);
        }
      }
    }
    if AlwaysEachRuns(t) {
      forall j: nat, k: nat | j < |t.states| && Runnable(t.states[j]) ensures RunsAgain(t, j, k) {
        TurnsKeep(t, k);
        assert EachRuns(Turns(t, k));
        EventuallyThenAgain(t, j, k);
      }
    }
  }

  lemma FairWhen(t: Tasks, k: nat)
    requires Valid(t) && OneRunning(t)
    requires (t.cur + 1 < |t.states| && !TailRunnable(t)) || NoneBeforeTail(t)
    ensures EachRuns(Turns(t, k))
  {
    hide Turns, EachRuns;
    TurnsKeep(t, k);
    EachRunsExactly(Turns(t, k));
  }

  lemma FairOnlyWhen(t: Tasks)
    requires Valid(t) && OneRunning(t) && AlwaysEachRuns(t)
    ensures (t.cur + 1 < |t.states| && !TailRunnable(t)) || NoneBeforeTail(t)
  {
    assert Turns(t, 0) == t;
    EachRunsExactly(t);
    var tail := |t.states| - 1;
    if t.cur < tail && TailRunnable(t) {
      assert EventuallyRuns(t, tail);
      var k: nat :| Turns(t, k).cur == tail;
      TurnsKeep(t, k);
      EachRunsExactly(Turns(t, k));
    }
  }

  /** From any state in which only the current task can be RUNNING, `schedule` is a round robin exactly if the
      current task is not the tail and the tail is not runnable, or no task but the tail is runnable. */
  lemma FairExactly(t: Tasks)
    requires Valid(t) && OneRunning(t)
    ensures Fair(t) <==> (t.cur + 1 < |t.states| && !TailRunnable(t)) || NoneBeforeTail(t)
  {
    FairIsAlways(t);
    if (t.cur + 1 < |t.states| && !TailRunnable(t)) || NoneBeforeTail(t) {
      forall k: nat ensures EachRuns(Turns(t, k)) {
        FairWhen(t, k);
      }
    } else if Fair(t) {
      FairOnlyWhen(t);
    }
  }

  /** From a RUNNING current task, fair means strictly in rotation: in every round of `Total` calls each
      runnable task runs exactly once, at the turn its rank gives, and the whole state is back after it. */
  lemma FairRotates(t: Tasks)
    requires Settled(t) && Fair(t)
    ensures Turns(t, Total(t)) == t
    ensures forall j, k :: 0 <= j < |t.states| && 0 <= k < Total(t) ==>
      (Turns(t, k).cur == j <==> Runnable(t.states[j]) && k == TurnOf(t, j))
  {
    hide Turns, Rank, Fair;
    FairExactly(t);
    if !TailRunnable(t) {
      FullRotation(t);
    } else {
      LoneTail(t);
    }
  }

  lemma LoneTail(t: Tasks)
    requires Settled(t) && NoneBeforeTail(t)
    ensures Total(t) == 1 && Turns(t, 1) == t
    ensures forall j :: 0 <= j < |t.states| ==>
      (Turns(t, 0).cur == j <==> Runnable(t.states[j]) && 0 == TurnOf(t, j))
  {
    hide Scheduled, Count;
    var n := |t.states|;
    assert t.cur == n - 1;
    assert Rank(t.states, 0) == 0 by { EmptyRank(t.states); }
    RankMonotone(t.states, 0, n - 1);
    RankNext(t.states, n - 1);
    StuckForever(t, 1);
  }

  lemma EmptyRank(s: seq<TaskState>)
    ensures Rank(s, 0) == 0
  {
  }

  /** The state `kernel_main` builds: each task gets one turn, but the first never a second. */
  lemma KernelMainExample()
    ensures var t := Tasks([Running, Ready], 0);
      Settled(t) && EachRuns(t) && !Fair(t) && forall k: nat :: k > 0 ==> !RunsAgain(t, 0, k)
  {
    var t := Tasks([Running, Ready], 0);
    assert Runnable(t.states[0]) && Runnable(t.states[1]);
    EachRunsExactly(t);
    FairExactly(t);
    RankNext(t.states, 0);
    RankNext(t.states, 1);
    forall m: nat | m > 0 ensures Turns(t, m).cur != 0 {
      TailAbsorbs(t, m);
    }
  }

  /** Two runnable tasks, the second at the tail: once the second runs, the first never does again. */
  lemma StarvationExample()
    ensures var t := Tasks([Ready, Running], 1); Settled(t) && !EachRuns(t) && !Fair(t)
  {
    var t := Tasks([Ready, Running], 1);
    assert Runnable(t.states[0]);
    EachRunsExactly(t);
    FairExactly(t);
  }

  /** Boot, one created task that gets the processor and exits at the tail: the first task is READY and
      never runs again, although the tail is not runnable. */
  lemma DeadTailExample()
    ensures var t := Step(Step(Step(BOOTED, Create), Yield), Exit);
      t == Tasks([Ready, Zombie], 1) && !TailRunnable(t) && !EachRuns(t) && !Fair(t)
  {
    var a := Step(BOOTED, Create);
    assert a == Tasks([Running, Ready], 0);
    var b := Step(a, Yield);
    assert Pick(a) == 1 && b == Tasks([Ready, Running], 1);
    var t := Step(b, Exit);
    assert t == Tasks([Ready, Zombie], 1);
    assert Runnable(t.states[0]);
    EachRunsExactly(t);
    FairExactly(t);
  }
}
