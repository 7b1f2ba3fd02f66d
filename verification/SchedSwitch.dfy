/** From the choice of a task to the memory that the processor gets when the interrupt returns. */
module SchedSwitch {
  import opened SchedState
  import opened SchedQueues
  import opened SchedPick
  import opened SchedShare
  import SchedTimer

  /** Below this, `isr_next` names no page tables. */
  const PAGE := 4096

  /** The end of an interrupt: `isr_next`, if it is an address at all, replaces the memory root; otherwise the
      interrupted task goes on. */
  function Resumed(next: nat, root: nat): nat {
    if next < PAGE then root else next
  }

  /** Every task has page tables of its own. */
  ghost predicate Rooted(s: Sys) {
    && (forall p <- s.tcb :: s.tcb[p].memroot >= PAGE)
    && forall p, r :: p in s.tcb && r in s.tcb && p != r ==> s.tcb[p].memroot != s.tcb[r].memroot
  }

  ghost predicate NoTask(q: Queues) {
    forall l :: l in q.active ==> l == []
  }

  lemma ChosenTask(s: Sys, q: Queues)
    requires Inv(s, q)
    ensures |s.hdActive| == |s.crActive| == |q.active| == PRI_COUNT
    ensures Chosen(s) in s.tcb <==> !NoTask(q)
    ensures Chosen(s) in s.tcb ==> s.tcb[Chosen(s)].priority < PRI_COUNT && Chosen(s) in q.active[s.tcb[Chosen(s)].priority]
  {
    InvSizes(s, q);
    if AnyReady(s.hdActive) {
      ChosenCursor(s, q);
      var at := Choose(s.hdActive, s.crActive).at;
      assert ActiveQueue(s, q.active[at], at);
      assert q.active[at] in q.active;
    } else {
      IdleNext(s, q);
      assert ActiveQueue(s, q.active[PRI_IDLE], PRI_IDLE);
      forall i | 0 <= i < PRI_IDLE
        ensures q.active[i] == []
      {
        QueueDigits(s, q, i);
      }
      QueueDigits(s, q, PRI_IDLE);
      assert q.active[PRI_IDLE] in q.active;
      assert q.active[PRI_IDLE] == [] ==> NoTask(q);
    }
  }

  /** What `isr_next` becomes: the root of the chosen task, unless that is running; the idle task's without any. */
  lemma PickNext(s: Sys, q: Queues, current: Pid, idle: nat)
    requires Inv(s, q)
    ensures |s.hdActive| == |s.crActive| == PRI_COUNT
    ensures var p, next := Chosen(s), Pick(s, current, idle).isrNext;
            if NoTask(q) then next == idle
            else p in s.tcb && next == if p == current then s.isrNext else s.tcb[p].memroot
  {
    hide Inv;
    hide Chosen;
    hide Choose;
    hide NoTask;
    ChosenTask(s, q);
  }

  /** At the values of the scheduler's number that show member `j` of queue `i`, that task is switched to. */
  lemma NextAt(s: Sys, q: Queues, i: nat, j: nat, current: Pid, idle: nat)
    requires Inv(s, q) && i < PRI_IDLE && j < |q.active[i]|
    requires Shows(Sizes(q), Counter(s, q), i, |q.active[i]| - j)
    ensures var p := q.active[i][j];
            p in s.tcb && Pick(s, current, idle).isrNext == if p == current then s.isrNext else s.tcb[p].memroot
  {
    hide *;
    ReadySizes(s, q, i);
    ChosenIffShows(s, q, i, j);
    HasTask(q, i);
    PickNext(s, q, current, idle);
  }

  lemma HasTask(q: Queues, i: nat)
    requires i < |q.active| && q.active[i] != []
    ensures !NoTask(q)
  {
    assert q.active[i] in q.active;
  }

  /** The memory root after a timer interrupt that comes while `current` runs with `root`; `isr_next` has been reset
      at the end of the last one. */
  ghost function AfterTimer(s: Sys, current: Pid, root: nat, idle: nat): nat
    requires |s.hdActive| == |s.crActive| == PRI_COUNT
  {
    Resumed(Pick(s.(isrNext := 0), current, idle).isrNext, root)
  }

  lemma ResetInv(s: Sys, q: Queues, next: nat)
    requires Inv(s, q)
    ensures Inv(s.(isrNext := next), q)
  {
    var s' := s.(isrNext := next);
    forall i | 0 <= i < PRI_COUNT
      ensures ActiveQueue(s', q.active[i], i)
    {
      assert ActiveQueue(s, q.active[i], i);
    }
  }

  /** Being chosen means to run: after the interrupt the processor has the memory of the chosen task, whether it ran
      before or not, and without tasks that of the idle task. */
  lemma ChosenRuns(s: Sys, q: Queues, current: Pid, root: nat, idle: nat)
    requires Inv(s, q) && Rooted(s) && idle >= PAGE && (current in s.tcb ==> root == s.tcb[current].memroot)
    ensures |s.hdActive| == |s.crActive| == PRI_COUNT
    ensures AfterTimer(s, current, root, idle) ==
            if NoTask(q) then idle else if Chosen(s) in s.tcb then s.tcb[Chosen(s)].memroot else 0
  {
    hide Inv;
    hide Choose;
    hide NoTask;
    ResetInv(s, q, 0);
    PickNext(s.(isrNext := 0), q, current, idle);
    ChosenTask(s, q);
    hide Pick;
  }

  // ----- consecutive interrupts with unchanged queues; `cur(k)` runs with `root(k)` when the k-th comes

  ghost predicate RootsOf(s: Sys, cur: nat -> Pid, root: nat -> nat) {
    forall k: nat :: cur(k) in s.tcb ==> root(k) == s.tcb[cur(k)].memroot
  }

  ghost function RootOf(s: Sys, p: Pid): nat {
    if p in s.tcb then s.tcb[p].memroot else 0
  }

  ghost predicate RunsAfter(s: Sys, p: Pid, cur: nat -> Pid, root: nat -> nat, idle: nat, k: nat)
    requires |s.hdActive| == |s.crActive| == PRI_COUNT
  {
    AfterTimer(Picks(s, k, cur, idle), cur(k), root(k), idle) == RootOf(s, p)
  }

  /** The interrupts, counted from 0, after which `p` runs. */
  ghost function Running(s: Sys, p: Pid, cur: nat -> Pid, root: nat -> nat, idle: nat): nat -> bool
    requires |s.hdActive| == |s.crActive| == PRI_COUNT
  {
    (k: nat) => RunsAfter(s, p, cur, root, idle, k)
  }

  lemma {:induction false} PicksTasks(s: Sys, k: nat, cur: nat -> Pid, idle: nat)
    requires |s.hdActive| == |s.crActive| == PRI_COUNT
    ensures Picks(s, k, cur, idle).tcb == s.tcb
  {
    hide Chosen;
    hide Choose;
    if k > 0 {
      PicksTasks(s, k - 1, cur, idle);
    }
  }

  lemma RunsWhenPicked(s: Sys, q: Queues, p: Pid, cur: nat -> Pid, root: nat -> nat, idle: nat, k: nat)
    requires Inv(s, q) && Rooted(s) && idle >= PAGE && RootsOf(s, cur, root) && p in s.tcb && !NoTask(q)
    requires |s.hdActive| == |s.crActive| == PRI_COUNT
    ensures var t := Picks(s, k, cur, idle);
            RunsAfter(s, p, cur, root, idle, k) <==> Chosen(t) == p
  {
    hide Inv;
    hide Chosen;
    hide Picks;
    hide AfterTimer;
    hide Rooted;
    hide RootsOf;
    hide NoTask;
    hide RootOf;
    PicksInv(s, q, k, cur, idle);
    PicksTasks(s, k, cur, idle);
    var t := Picks(s, k, cur, idle);
    RootedSame(s, t, cur, root, k);
    ChosenRuns(t, q, cur(k), root(k), idle);
    ChosenTask(t, q);
    SameRoot(s, p, Chosen(t));
    RootIs(s, p);
  }

  lemma RunningIsPicking(s: Sys, q: Queues, p: Pid, cur: nat -> Pid, root: nat -> nat, idle: nat, k: nat)
    requires Inv(s, q) && Rooted(s) && idle >= PAGE && RootsOf(s, cur, root) && p in s.tcb && !NoTask(q)
    requires |s.hdActive| == |s.crActive| == PRI_COUNT
    ensures Running(s, p, cur, root, idle)(k) == Picking(s, p, cur, idle)(k)
  {
    hide *;
    RunsWhenPicked(s, q, p, cur, root, idle, k);
    RunningAt(s, p, cur, root, idle, k);
    PickingAt(s, p, cur, idle, k);
  }

  lemma RunningAt(s: Sys, p: Pid, cur: nat -> Pid, root: nat -> nat, idle: nat, k: nat)
    requires |s.hdActive| == |s.crActive| == PRI_COUNT
    ensures Running(s, p, cur, root, idle)(k) == RunsAfter(s, p, cur, root, idle, k)
  {
    hide RunsAfter;
  }

  lemma PickingAt(s: Sys, p: Pid, cur: nat -> Pid, idle: nat, k: nat)
    requires |s.hdActive| == |s.crActive| == PRI_COUNT
    ensures Picking(s, p, cur, idle)(k) == (Chosen(Picks(s, k, cur, idle)) == p)
  {
    hide Chosen;
    hide Picks;
  }

  lemma SameRoot(s: Sys, p: Pid, r: Pid)
    requires Rooted(s) && p in s.tcb && r in s.tcb
    ensures s.tcb[p].memroot == s.tcb[r].memroot <==> p == r
  {
  }

  lemma {:induction false} TallySame(f: nat -> bool, g: nat -> bool, a: nat, b: nat)
    requires forall k: nat :: f(k) == g(k)
    ensures Tally(f, a, b) == Tally(g, a, b)
    decreases b
  {
    if a < b {
      TallySame(f, g, a, b - 1);
    }
  }

  /** With unchanged queues, of any Radix - 1 consecutive turns each task of queue `i` runs in as many as the product
      of the lengths plus one of the queues behind it, whatever ran before each. */
  lemma FairTurns(s: Sys, q: Queues, i: nat, j: nat, cur: nat -> Pid, root: nat -> nat, idle: nat)
    requires Inv(s, q) && i < PRI_IDLE && j < |q.active[i]|
    requires Rooted(s) && idle >= PAGE && RootsOf(s, cur, root)
    ensures Tally(Running(s, q.active[i][j], cur, root, idle), 0, Radix(Sizes(q)) - 1) == Radix(Sizes(q)[i + 1..])
  {
    hide *;
    ReadySizes(s, q, i);
    MemberExists(s, q, i, j);
    HasTask(q, i);
    var p := q.active[i][j];
    forall k: nat
      ensures Running(s, p, cur, root, idle)(k) == Picking(s, p, cur, idle)(k)
    {
      RunningIsPicking(s, q, p, cur, root, idle, k);
    }
    TallySame(Running(s, p, cur, root, idle), Picking(s, p, cur, idle), 0, Radix(Sizes(q)) - 1);
    FairShare(s, q, i, j, cur, idle);
  }

  lemma MemberExists(s: Sys, q: Queues, i: nat, j: nat)
    requires Inv(s, q) && i < PRI_COUNT && j < |q.active[i]|
    ensures q.active[i][j] in s.tcb
  {
    assert ActiveQueue(s, q.active[i], i);
    assert q.active[i][j] in q.active[i];
  }

  /** Every ready task runs after one of any Radix - 1 consecutive interrupts. */
  lemma RunsSoon(s: Sys, q: Queues, i: nat, j: nat, cur: nat -> Pid, root: nat -> nat, idle: nat) returns (k: nat)
    requires Inv(s, q) && i < PRI_IDLE && j < |q.active[i]|
    requires Rooted(s) && idle >= PAGE && RootsOf(s, cur, root)
    ensures k < Radix(Sizes(q)) - 1
    ensures AfterTimer(Picks(s, k, cur, idle), cur(k), root(k), idle) == RootOf(s, q.active[i][j])
  {
    hide *;
    ReadySizes(s, q, i);
    MemberExists(s, q, i, j);
    HasTask(q, i);
    k := NoStarvation(s, q, i, j, cur, idle);
    PicksInv(s, q, k, cur, idle);
    PicksTasks(s, k, cur, idle);
    RootedSame(s, Picks(s, k, cur, idle), cur, root, k);
    ChosenRuns(Picks(s, k, cur, idle), q, cur(k), root(k), idle);
    RootIs(s, q.active[i][j]);
  }

  lemma RootIs(s: Sys, p: Pid)
    requires p in s.tcb
    ensures RootOf(s, p) == s.tcb[p].memroot
  {
  }

  lemma RootedSame(s: Sys, t: Sys, cur: nat -> Pid, root: nat -> nat, k: nat)
    requires Rooted(s) && RootsOf(s, cur, root) && t.tcb == s.tcb
    ensures Rooted(t) && (cur(k) in t.tcb ==> root(k) == t.tcb[cur(k)].memroot)
  {
  }

  /** With only idle-priority tasks, they take turns: the task at the cursor, and the cursor moves on. */
  lemma IdleTurns(s: Sys, q: Queues, j: nat, current: Pid, idle: nat)
    requires Inv(s, q) && !AnyReady(s.hdActive) && j < |q.active[PRI_IDLE]|
    requires s.crActive[PRI_IDLE] == q.active[PRI_IDLE][j] || (s.crActive[PRI_IDLE] == 0 && j == 0)
    ensures Chosen(s) == q.active[PRI_IDLE][j]
    ensures Pick(s, current, idle).crActive[PRI_IDLE] == At(q.active[PRI_IDLE], j + 1)
  {
    var l := q.active[PRI_IDLE];
    assert ActiveQueue(s, l, PRI_IDLE);
    IdleNext(s, q);
    assert l[j] in l && Node(s.tcb, l, j);
    hide Scan;
  }

  /** A task that is woken runs when the interrupt returns; so does the one whose alarm has expired. */
  lemma WokenRuns(s: Sys, p: Pid, now: nat, root: nat)
    requires Rooted(s) && p in s.tcb && s.tcb[p].priority < |s.hdActive|
    ensures Resumed(Awake(s, p, now).isrNext, root) == s.tcb[p].memroot
  {
    hide Activated;
  }

  lemma ExpiredRuns(s: Sys, clock: SchedTimer.Clock, root: nat)
    requires Rooted(s) && s.hdTimerq in s.tcb && s.tcb[s.hdTimerq].priority < |s.hdActive|
    ensures Resumed(SchedTimer.Expire(s, clock).isrNext, root) == s.tcb[s.hdTimerq].memroot
  {
    WokenRuns(s, s.hdTimerq, clock.lo, root);
    hide Awake;
  }
}
