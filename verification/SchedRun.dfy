/** Whole runs of the scheduler. The links in the control blocks, changed by any sequence of
    operations, always spell out the lists of a bookkeeping machine that knows no links. */
module SchedRun {
  import opened SchedState
  import opened SchedQueues
  import opened SchedTimer
  import SchedPick

  datatype Step =
    | Spawn(p: Pid, priority: nat, memroot: nat)
    | DoAdd(p: Pid)
    | DoRemove(p: Pid)
    | DoBlock(p: Pid, now: nat)
    | DoAwake(p: Pid, now: nat)
    | DoAlarm(p: Pid, sec: nat, ns: nat, clock: Clock)
    | DoPick(current: Pid)
    | DoExpire(clock: Clock)

  /** The lists themselves. */
  datatype Book = Book(q: Queues, timer: seq<Pid>)

  /** Every task that is not running is on the blocked list. */
  ghost predicate Listed(s: Sys, b: Book) {
    forall p <- s.tcb :: s.tcb[p].state != Running ==> p in b.q.blocked
  }

  ghost predicate Coherent(s: Sys, b: Book) {
    Inv(s, b.q) && TimerList(s, b.timer) && Listed(s, b)
  }

  // ----- what callers guarantee

  ghost predicate MayBlock(s: Sys, b: Book, p: Pid, idle: nat) {
    p in s.tcb && |b.q.active| == PRI_COUNT && Queued(b.q, p) && (s.tcb[p].memroot == idle || At(b.q.blocked, 0) != p)
  }

  ghost predicate Enabled(s: Sys, b: Book, step: Step, idle: nat) {
    |b.q.active| == PRI_COUNT &&
    match step
    case Spawn(p, pri, _) => p != 0 && p !in s.tcb && pri < PRI_COUNT
    case DoAdd(p) => p in s.tcb && s.tcb[p].state == Running && !Queued(b.q, p)
    case DoRemove(p) => p in s.tcb && s.tcb[p].priority < PRI_COUNT && p in b.q.active[s.tcb[p].priority]
    case DoBlock(p, _) => MayBlock(s, b, p, idle)
    case DoAwake(p, _) => p in s.tcb
    case DoAlarm(p, sec, ns, clock) =>
      if Past(clock, sec, ns) then p in s.tcb else MayBlock(s, b, p, idle) && p !in b.timer
    case DoPick(_) => true
    case DoExpire(_) => b.timer != []
  }

  // ----- the links

  ghost function NewTcb(p: Pid, priority: nat, memroot: nat): Tcb {
    Tcb(p, priority, Running, memroot, 0, 0, 0, 0, 0, 0, 0)
  }

  ghost function Exec(s: Sys, b: Book, step: Step, idle: nat): Sys
    requires Typed(s) && Enabled(s, b, step, idle)
  {
    match step
    case Spawn(p, pri, root) => s.(tcb := s.tcb[p := NewTcb(p, pri, root)])
    case DoAdd(p) => Add(s, p)
    case DoRemove(p) => Remove(s, p)
    case DoBlock(p, now) => Block(s, p, idle, now)
    case DoAwake(p, now) => Awake(s, p, now)
    case DoAlarm(p, sec, ns, clock) => Alarm(s, b.timer, p, sec, ns, idle, clock)
    case DoPick(current) => Pick(s, current, idle)
    case DoExpire(clock) => if s.hdTimerq in s.tcb then Expire(s, clock) else s
  }

  // ----- the lists

  ghost function BlockedBook(s: Sys, b: Book, p: Pid, idle: nat): Book
    requires p in s.tcb && s.tcb[p].priority < |b.q.active|
  {
    if s.tcb[p].memroot == idle then b else b.(q := BlockedQueues(b.q, s.tcb[p].priority, p))
  }

  ghost function AwakeBook(s: Sys, b: Book, p: Pid): Book
    requires p in s.tcb && s.tcb[p].priority < |b.q.active|
  {
    if s.tcb[p].state == Running then b else b.(q := AwakeQueues(b.q, s.tcb[p].priority, p))
  }

  ghost function Record(s: Sys, b: Book, step: Step, idle: nat): Book
    requires Typed(s) && Enabled(s, b, step, idle)
  {
    match step
    case Spawn(p, pri, root) => b
    case DoAdd(p) => b.(q := Pushed(b.q, s.tcb[p].priority, p))
    case DoRemove(p) => b.(q := Dropped(b.q, s.tcb[p].priority, p))
    case DoBlock(p, now) => BlockedBook(s, b, p, idle)
    case DoAwake(p, now) => AwakeBook(s, b, p)
    case DoAlarm(p, sec, ns, clock) =>
      if Past(clock, sec, ns) then AwakeBook(s, b, p)
      else BlockedBook(s, b, p, idle).(timer := Inserted(b.timer, Position(s.tcb, b.timer, sec, ns), p))
    case DoPick(current) => b
    case DoExpire(clock) => if b.timer[0] in s.tcb then AwakeBook(s, b, b.timer[0]).(timer := b.timer[1..]) else b
  }

  // ----- alarm fields do not matter for the queues

  ghost predicate OnlyAlarms(s: Sys, s': Sys) {
    && s'.hdActive == s.hdActive && s'.crActive == s.crActive && s'.hdBlocked == s.hdBlocked
    && s'.tcb.Keys == s.tcb.Keys
    && forall x <- s.tcb :: s'.tcb[x] == s.tcb[x].(alarm := s'.tcb[x].alarm, alarmsec := s'.tcb[x].alarmsec,
                                                   alarmns := s'.tcb[x].alarmns)
  }

  lemma QueuesFrame(s: Sys, s': Sys, q: Queues)
    requires Inv(s, q) && OnlyAlarms(s, s')
    ensures Inv(s', q)
  {
    forall i | 0 <= i < PRI_COUNT
      ensures ActiveQueue(s', q.active[i], i)
    {
      assert ActiveQueue(s, q.active[i], i);
      LinkedFrame(s.tcb, s'.tcb, q.active[i]);
    }
    LinkedFrame(s.tcb, s'.tcb, q.blocked);
  }

  /** No state differs but that of `p`. */
  ghost predicate SameStates(t: Tasks, t': Tasks, p: Pid) {
    t'.Keys == t.Keys && forall x <- t :: x != p ==> t'[x].state == t[x].state
  }

  lemma UnlinkState(t: Tasks, prev: Pid, next: Pid, x: Pid)
    requires x in t
    ensures x in Unlink(t, prev, next) && Unlink(t, prev, next)[x].state == t[x].state
  {
  }

  lemma BlockState(s: Sys, p: Pid, idle: nat, now: nat, x: Pid)
    requires p in s.tcb && s.tcb[p].priority < |s.hdActive| == |s.crActive| && x in s.tcb && x != p
    ensures x in Block(s, p, idle, now).tcb && Block(s, p, idle, now).tcb[x].state == s.tcb[x].state
  {
    if s.tcb[p].memroot != idle {
      var c := s.tcb[p].(blktime := now, state := Blocked);
      UnlinkState(s.tcb[p := c][p := c.(prev := 0, next := 0)], c.prev, c.next, x);
      hide Unlink;
    }
  }

  /** The books of a task: when it was blocked, and for how long so far. */
  lemma BlockTimes(s: Sys, p: Pid, idle: nat, now: nat)
    requires p in s.tcb && s.tcb[p].priority < |s.hdActive| == |s.crActive| && s.tcb[p].memroot != idle
    ensures var c := Block(s, p, idle, now).tcb;
            p in c && c[p].blktime == now && c[p].blkcnt == s.tcb[p].blkcnt && c[p].state == Blocked
            && c[p].priority == s.tcb[p].priority
  {
    var c := s.tcb[p].(blktime := now, state := Blocked);
    UnlinkBooks(s.tcb[p := c][p := c.(prev := 0, next := 0)], c.prev, c.next, p);
    hide Unlink;
  }

  lemma UnlinkBooks(t: Tasks, prev: Pid, next: Pid, x: Pid)
    requires x in t
    ensures var u := Unlink(t, prev, next);
            x in u && u[x].blktime == t[x].blktime && u[x].blkcnt == t[x].blkcnt && u[x].state == t[x].state
            && u[x].priority == t[x].priority
  {
  }

  lemma AwakeBilled(s: Sys, p: Pid, now: nat)
    requires p in s.tcb && s.tcb[p].priority < |s.hdActive| && s.tcb[p].state != Running
    ensures var c := Awake(s, p, now).tcb;
            p in c && c[p].blktime == 0 && c[p].blkcnt == (s.tcb[p].blkcnt + now - s.tcb[p].blktime) % TWO64
  {
    var c := s.tcb[p];
    var c1 := c.(state := Blocked);
    var s0 := s.(tcb := s.tcb[p := c1][p := c1.(blkcnt := Billed(c1, now), blktime := 0)]);
    var s1 := Add(s0, p);
    assert p in s1.tcb && s1.tcb[p].blkcnt == Billed(c1, now) && s1.tcb[p].blktime == 0;
    UnlinkBooks(s1.tcb, c.prev, c.next, p);
    hide Unlink;
    hide Add;
  }

  /** A task that is blocked at one time and woken at another is billed exactly the time between, whatever happens to
      other tasks meanwhile; waking a running task bills nothing. */
  lemma BlockedTime(s: Sys, p: Pid, idle: nat, from: nat, s1: Sys, till: nat)
    requires p in s.tcb && s.tcb[p].priority < |s.hdActive| == |s.crActive| && s.tcb[p].memroot != idle
    requires from <= till && s.tcb[p].blkcnt + (till - from) < TWO64
    requires p in s1.tcb && s1.tcb[p].priority < |s1.hdActive|
    requires var c := Block(s, p, idle, from).tcb;
             p in c && s1.tcb[p].blktime == c[p].blktime && s1.tcb[p].blkcnt == c[p].blkcnt && s1.tcb[p].state == c[p].state
    ensures var c := Awake(s1, p, till).tcb; p in c && c[p].blkcnt == s.tcb[p].blkcnt + (till - from)
    ensures s.tcb[p].state == Running ==> Awake(s, p, till).tcb == s.tcb
  {
    BlockTimes(s, p, idle, from);
    AwakeBilled(s1, p, till);
    hide Block;
    hide Activated;
  }

  lemma BlockStates(s: Sys, p: Pid, idle: nat, now: nat)
    requires p in s.tcb && s.tcb[p].priority < |s.hdActive| == |s.crActive|
    ensures SameStates(s.tcb, Block(s, p, idle, now).tcb, p)
  {
    hide Block;
    TimesAfterBlock(s, p, idle, now);
    forall x <- s.tcb | x != p
      ensures Block(s, p, idle, now).tcb[x].state == s.tcb[x].state
    {
      BlockState(s, p, idle, now, x);
    }
  }

  lemma AwakeState(s: Sys, p: Pid, now: nat, x: Pid)
    requires p in s.tcb && s.tcb[p].priority < |s.hdActive| && x in s.tcb && x != p
    ensures x in Awake(s, p, now).tcb && Awake(s, p, now).tcb[x].state == s.tcb[x].state
  {
    var c := s.tcb[p];
    if c.state != Running {
      var c1 := c.(state := Blocked);
      var s0 := s.(tcb := s.tcb[p := c1][p := c1.(blkcnt := Billed(c1, now), blktime := 0)]);
      var s1 := Add(s0, p);
      assert x in s1.tcb && s1.tcb[x].state == s.tcb[x].state;
      UnlinkState(s1.tcb, c.prev, c.next, x);
      hide Unlink;
      hide Add;
    }
  }

  lemma AwakeStates(s: Sys, p: Pid, now: nat)
    requires p in s.tcb && s.tcb[p].priority < |s.hdActive|
    ensures SameStates(s.tcb, Awake(s, p, now).tcb, p) && Awake(s, p, now).tcb[p].state == Running
  {
    hide Activated;
    assert Awake(s, p, now).tcb[p].state == Running;
    hide Awake;
    TimesAfterAwake(s, p, now);
    forall x <- s.tcb | x != p
      ensures Awake(s, p, now).tcb[x].state == s.tcb[x].state
    {
      AwakeState(s, p, now, x);
    }
  }

  lemma BlockedListed(s: Sys, b: Book, p: Pid, idle: nat, s': Sys)
    requires Inv(s, b.q) && Listed(s, b) && p in s.tcb && s.tcb[p].priority < |b.q.active|
    requires SameStates(s.tcb, s'.tcb, p) && (s.tcb[p].memroot == idle ==> s'.tcb == s.tcb)
    ensures Listed(s', BlockedBook(s, b, p, idle))
  {
    Remain(b.q.blocked, p);
  }

  lemma AwakeListed(s: Sys, b: Book, p: Pid, s': Sys)
    requires Inv(s, b.q) && Listed(s, b) && p in s.tcb && s.tcb[p].priority < |b.q.active|
    requires SameStates(s.tcb, s'.tcb, p) && s'.tcb[p].state == Running
    ensures Listed(s', AwakeBook(s, b, p))
  {
    Remain(b.q.blocked, p);
  }

  lemma {:induction false} Remain(l: seq<Pid>, p: Pid)
    ensures forall x :: x in l && x != p ==> x in Without(l, p)
  {
    if l != [] {
      Remain(l[1..], p);
    }
  }

  lemma BlockKeeps(s: Sys, b: Book, p: Pid, idle: nat, now: nat)
    requires Coherent(s, b) && MayBlock(s, b, p, idle)
    ensures Coherent(Block(s, p, idle, now), BlockedBook(s, b, p, idle))
  {
    TimesAfterBlock(s, p, idle, now);
    TimerFrame(s, Block(s, p, idle, now), b.timer);
    if s.tcb[p].memroot != idle { BlockInv(s, b.q, p, idle, now); }
    BlockStates(s, p, idle, now);
    BlockedListed(s, b, p, idle, Block(s, p, idle, now));
  }

  lemma AwakeKeeps(s: Sys, b: Book, p: Pid, now: nat)
    requires Coherent(s, b) && p in s.tcb
    ensures Coherent(Awake(s, p, now), AwakeBook(s, b, p))
  {
    TimesAfterAwake(s, p, now);
    TimerFrame(s, Awake(s, p, now), b.timer);
    AwakeStates(s, p, now);
    AwakeListed(s, b, p, Awake(s, p, now));
    if s.tcb[p].state == Running {
      QueuesFrame(s, Awake(s, p, now), b.q);
    } else {
      AwakeInv(s, b.q, p, now);
    }
  }

  lemma PositionIs(t: Tasks, l: seq<Pid>, sec: nat, ns: nat, k: nat)
    requires k <= |l| && forall i :: 0 <= i < |l| ==> l[i] in t && (i < k <==> !Later(t[l[i]], sec, ns))
    ensures k == Position(t, l, sec, ns)
  {
    var n := Position(t, l, sec, ns);
    assert n < |l| ==> Later(t[l[n]], sec, ns);
    assert k < |l| ==> Later(t[l[k]], sec, ns);
  }

  lemma LinkAlarmOnly(s: Sys, l: seq<Pid>, p: Pid, sec: nat, ns: nat, k: nat)
    requires p in s.tcb && k <= |l|
    ensures OnlyAlarms(s, LinkAlarm(Timed(s, p, sec, ns), l, p, k))
  {
  }

  lemma AlarmKeeps(s: Sys, b: Book, p: Pid, sec: nat, ns: nat, idle: nat, clock: Clock)
    requires Coherent(s, b) && MayBlock(s, b, p, idle) && p !in b.timer && !Past(clock, sec, ns)
    ensures Coherent(Alarm(s, b.timer, p, sec, ns, idle, clock),
                     BlockedBook(s, b, p, idle).(timer := Inserted(b.timer, Position(s.tcb, b.timer, sec, ns), p)))
  {
    var k := AlarmInserts(s, b.timer, p, sec, ns, idle, clock);
    PositionIs(s.tcb, b.timer, sec, ns, k);
    BlockKeeps(s, b, p, idle, clock.lo);
    var s0 := Block(s, p, idle, clock.lo);
    TimesAfterBlock(s, p, idle, clock.lo);
    var s1 := Timed(s0, p, sec, ns);
    var n := Position(s1.tcb, b.timer, sec, ns);
    LinkAlarmOnly(s0, b.timer, p, sec, ns, n);
    QueuesFrame(s0, LinkAlarm(s1, b.timer, p, n), BlockedBook(s, b, p, idle).q);
  }

  lemma ExpireKeeps(s: Sys, b: Book, clock: Clock)
    requires Coherent(s, b) && b.timer != []
    ensures s.hdTimerq == b.timer[0] && b.timer[0] in s.tcb
    ensures Coherent(Expire(s, clock), AwakeBook(s, b, b.timer[0]).(timer := b.timer[1..]))
  {
    var h := b.timer[0];
    assert TimerNode(s.tcb, b.timer, 0);
    AwakeKeeps(s, b, h, clock.lo);
    ExpireDropsHead(s, b.timer, clock);
    QueuesFrame(Awake(s, h, clock.lo), Expire(s, clock), AwakeBook(s, b, h).q);
  }

  lemma SpawnKeeps(s: Sys, b: Book, p: Pid, pri: nat, root: nat)
    requires Coherent(s, b) && p != 0 && p !in s.tcb && pri < PRI_COUNT
    ensures Coherent(s.(tcb := s.tcb[p := NewTcb(p, pri, root)]), b)
  {
    var s' := s.(tcb := s.tcb[p := NewTcb(p, pri, root)]);
    forall i | 0 <= i < PRI_COUNT
      ensures ActiveQueue(s', b.q.active[i], i)
    {
      assert ActiveQueue(s, b.q.active[i], i);
      LinkedFrame(s.tcb, s'.tcb, b.q.active[i]);
    }
    LinkedFrame(s.tcb, s'.tcb, b.q.blocked);
    forall i | 0 <= i < |b.timer|
      ensures TimerNode(s'.tcb, b.timer, i)
    {
      assert TimerNode(s.tcb, b.timer, i);
    }
    TimerMembers(s, b.timer);
  }

  lemma AddKeeps(s: Sys, b: Book, p: Pid)
    requires Coherent(s, b) && p in s.tcb && s.tcb[p].state == Running && !Queued(b.q, p)
    ensures Coherent(Add(s, p), b.(q := Pushed(b.q, s.tcb[p].priority, p)))
  {
    hide Linked;
    hide TimerList;
    AddInv(s, b.q, p);
    TimesAfterAdd(s, p);
    TimerFrame(s, Add(s, p), b.timer);
  }

  lemma RemoveKeeps(s: Sys, b: Book, p: Pid)
    requires Coherent(s, b) && p in s.tcb && s.tcb[p].priority < |b.q.active| && p in b.q.active[s.tcb[p].priority]
    ensures Coherent(Remove(s, p), b.(q := Dropped(b.q, s.tcb[p].priority, p)))
  {
    hide Linked;
    hide TimerList;
    RemoveInv(s, b.q, p);
    TimesAfterRemove(s, p);
    TimerFrame(s, Remove(s, p), b.timer);
  }

  lemma PickKeeps(s: Sys, b: Book, current: Pid, idle: nat)
    requires Coherent(s, b)
    ensures Coherent(Pick(s, current, idle), b)
  {
    hide Linked;
    hide TimerList;
    hide Choose;
    SchedPick.PickInv(s, b.q, current, idle);
    TimerFrame(s, Pick(s, current, idle), b.timer);
  }

  /** One step: the links after it spell out the lists after it. */
  lemma StepKeeps(s: Sys, b: Book, step: Step, idle: nat)
    requires Coherent(s, b) && Enabled(s, b, step, idle)
    ensures Coherent(Exec(s, b, step, idle), Record(s, b, step, idle))
  {
    match step {
      case Spawn(p, pri, root) => SpawnKeeps(s, b, p, pri, root);
      case DoBlock(p, now) => BlockKeeps(s, b, p, idle, now);
      case DoAwake(p, now) => AwakeKeeps(s, b, p, now);
      case DoAlarm(p, sec, ns, clock) =>
        if Past(clock, sec, ns) {
          AwakeKeeps(s, b, p, clock.lo);
        } else {
          AlarmKeeps(s, b, p, sec, ns, idle, clock);
        }
      case DoExpire(clock) => ExpireKeeps(s, b, clock);
      case DoAdd(p) => AddKeeps(s, b, p);
      case DoRemove(p) => RemoveKeeps(s, b, p);
      case DoPick(current) => PickKeeps(s, b, current, idle);
    }
  }

  // ----- runs

  ghost predicate Runs(s: Sys, b: Book, steps: seq<Step>, idle: nat, s': Sys, b': Book)
    decreases |steps|
  {
    if steps == [] then s' == s && b' == b
    else
      && Typed(s) && Enabled(s, b, steps[0], idle)
      && Runs(Exec(s, b, steps[0], idle), Record(s, b, steps[0], idle), steps[1..], idle, s', b')
  }

  /** In every run, the links spell out the lists. */
  lemma {:induction false} RunKeeps(s: Sys, b: Book, steps: seq<Step>, idle: nat, s': Sys, b': Book)
    requires Coherent(s, b) && Runs(s, b, steps, idle, s', b')
    ensures Coherent(s', b')
    decreases |steps|
  {
    if steps != [] {
      StepKeeps(s, b, steps[0], idle);
      RunKeeps(Exec(s, b, steps[0], idle), Record(s, b, steps[0], idle), steps[1..], idle, s', b');
    }
  }

  const BOOT := Sys(map[], 0, 0, [0, 0, 0, 0, 0, 0, 0, 0], [0, 0, 0, 0, 0, 0, 0, 0], 0)
  const EMPTY_BOOK := Book(Queues([[], [], [], [], [], [], [], []], []), [])

  lemma BootCoherent()
    ensures Coherent(BOOT, EMPTY_BOOK) && Typed(BOOT)
  {
  }

  /** From boot on: queues and blocked list pairwise disjoint, members of the right state and
      priority, cursors on members, timer list sorted. */
  lemma BootRuns(steps: seq<Step>, idle: nat, s: Sys, b: Book)
    requires Runs(BOOT, EMPTY_BOOK, steps, idle, s, b)
    ensures Coherent(s, b)
    ensures forall i, j, p :: 0 <= i < j < PRI_COUNT && p in b.q.active[i] ==> p !in b.q.active[j]
    ensures forall i, p :: 0 <= i < PRI_COUNT && p in b.q.active[i] ==> p !in b.q.blocked
  {
    BootCoherent();
    RunKeeps(BOOT, EMPTY_BOOK, steps, idle, s, b);
    QueuesDisjoint(s, b.q);
  }

  /** Setting an alarm for the only task on the timer list, at a time not yet past, makes it point to itself. */
  lemma AlarmAgain(s: Sys, b: Book, p: Pid, sec: nat, ns: nat, idle: nat, clock: Clock)
    requires Coherent(s, b) && b.timer == [p] && p in s.tcb && !Past(clock, sec, ns)
    ensures var s' := Alarm(s, b.timer, p, sec, ns, idle, clock);
            p in s'.tcb && s'.hdTimerq == p == s'.tcb[p].alarm
  {
    TimedLinks(s, b.timer, p, sec, ns, idle, clock.lo);
    var s1 := Timed(Block(s, p, idle, clock.lo), p, sec, ns);
    assert Position(s1.tcb, [p], sec, ns) == 1;
  }

  /** A running task that is in no list is added and then blocked. */
  lemma AddThenBlock(s: Sys, b: Book, p: Pid, idle: nat, now: nat, s2: Sys, b2: Book, s3: Sys, b3: Book)
    requires Coherent(s, b) && Enabled(s, b, DoAdd(p), idle) && b.q.blocked == [] && s.tcb[p].memroot != idle
    requires s2 == Exec(s, b, DoAdd(p), idle) && b2 == Record(s, b, DoAdd(p), idle)
    requires p in s2.tcb && s2.tcb[p].priority < |s2.hdActive| == |s2.crActive| && s2.tcb[p].priority < |b2.q.active|
    requires s3 == Block(s2, p, idle, now) && b3 == BlockedBook(s2, b2, p, idle)
    ensures Runs(s, b, [DoAdd(p), DoBlock(p, now)], idle, s3, b3)
    ensures p in s3.tcb && s3.hdBlocked == p && s3.tcb[p].memroot != idle
  {
    StepKeeps(s, b, DoAdd(p), idle);
    var pri := s.tcb[p].priority;
    assert p in b2.q.active[pri];
    assert b2.q.blocked == [];
    assert Enabled(s2, b2, DoBlock(p, now), idle);
    assert Runs(s3, b3, [], idle, s3, b3);
    assert Runs(s2, b2, [DoBlock(p, now)], idle, s3, b3);
  }

  /** Three steps from boot lead to a state whose blocked list has a head: a new task is queued and blocked. */
  lemma BlockedFromBoot(p: Pid, pri: nat, root: nat, idle: nat, now: nat)
    requires p != 0 && pri < PRI_COUNT && root != idle
    ensures exists s, b :: Runs(BOOT, EMPTY_BOOK, [Spawn(p, pri, root), DoAdd(p), DoBlock(p, now)], idle, s, b)
              && p in s.tcb && s.hdBlocked == p && s.tcb[p].memroot != idle
  {
    var step := Spawn(p, pri, root);
    var s1, b1 := Exec(BOOT, EMPTY_BOOK, step, idle), Record(BOOT, EMPTY_BOOK, step, idle);
    BootCoherent();
    StepKeeps(BOOT, EMPTY_BOOK, step, idle);
    var s2, b2 := Exec(s1, b1, DoAdd(p), idle), Record(s1, b1, DoAdd(p), idle);
    var s3, b3 := Block(s2, p, idle, now), BlockedBook(s2, b2, p, idle);
    AddThenBlock(s1, b1, p, idle, now, s2, b2, s3, b3);
    assert [step, DoAdd(p), DoBlock(p, now)][1..] == [DoAdd(p), DoBlock(p, now)];
    assert Runs(BOOT, EMPTY_BOOK, [step, DoAdd(p), DoBlock(p, now)], idle, s3, b3);
  }

  lemma RunsStep(s: Sys, b: Book, step: Step, steps: seq<Step>, idle: nat, s': Sys, b': Book)
    requires Typed(s) && Enabled(s, b, step, idle)
    requires Runs(Exec(s, b, step, idle), Record(s, b, step, idle), steps, idle, s', b')
    ensures Runs(s, b, [step] + steps, idle, s', b')
  {
    hide Exec;
    hide Record;
    hide Enabled;
    assert ([step] + steps)[1..] == steps;
  }

  lemma AfterAdd(s: Sys, b: Book, p: Pid, idle: nat)
    requires Coherent(s, b) && Enabled(s, b, DoAdd(p), idle) && b.q.blocked == []
    ensures MayBlock(Add(s, p), b.(q := Pushed(b.q, s.tcb[p].priority, p)), p, idle)
    ensures Add(s, p).tcb[p].memroot == s.tcb[p].memroot
  {
    hide Linked;
    hide TimerList;
    var q := Pushed(b.q, s.tcb[p].priority, p);
    assert p in q.active[s.tcb[p].priority];
  }

  lemma AfterAlarm(s: Sys, b: Book, p: Pid, sec: nat, ns: nat, idle: nat, clock: Clock)
    requires Coherent(s, b) && MayBlock(s, b, p, idle) && s.tcb[p].memroot != idle && !Past(clock, sec, ns)
    requires b.q.blocked == [] && b.timer == []
    ensures Enabled(s, b, DoAlarm(p, sec, ns, clock), idle)
    ensures var s1, b1 := Exec(s, b, DoAlarm(p, sec, ns, clock), idle), Record(s, b, DoAlarm(p, sec, ns, clock), idle);
            Coherent(s1, b1) && b1.timer == [p] && b1.q.blocked == [p] && p in s1.tcb && s1.tcb[p].state != Running
  {
    hide Linked;
    hide TimerList;
    hide Alarm;
    var step := DoAlarm(p, sec, ns, clock);
    StepKeeps(s, b, step, idle);
    var b1 := Record(s, b, step, idle);
    assert Position(s.tcb, [], sec, ns) == 0 && b1.timer == [p];
    assert p in b1.q.blocked;
  }

  lemma AfterAwake(s: Sys, b: Book, p: Pid, idle: nat, now: nat)
    requires Coherent(s, b) && p in s.tcb && s.tcb[p].state != Running && b.q.blocked == [p]
    ensures Typed(s) && Enabled(s, b, DoAwake(p, now), idle)
    ensures var s1, b1 := Exec(s, b, DoAwake(p, now), idle), Record(s, b, DoAwake(p, now), idle);
            Coherent(s1, b1) && b1.timer == b.timer && MayBlock(s1, b1, p, idle)
  {
    hide Linked;
    hide TimerList;
    StepKeeps(s, b, DoAwake(p, now), idle);
    AwakeStates(s, p, now);
    hide Awake;
    var b1 := Record(s, b, DoAwake(p, now), idle);
    assert p in b1.q.active[s.tcb[p].priority] && b1.q.blocked == [];
  }

  /** A running task that is in no list is added, sleeps until an alarm, and is woken before. */
  lemma AddAlarmAwake(s: Sys, b: Book, p: Pid, sec: nat, ns: nat, idle: nat, clock: Clock, now: nat) returns (s': Sys, b': Book)
    requires Coherent(s, b) && Enabled(s, b, DoAdd(p), idle) && b.q.blocked == [] && b.timer == []
    requires s.tcb[p].memroot != idle && !Past(clock, sec, ns)
    ensures Runs(s, b, [DoAdd(p), DoAlarm(p, sec, ns, clock), DoAwake(p, now)], idle, s', b')
    ensures Coherent(s', b') && b'.timer == [p] && MayBlock(s', b', p, idle)
  {
    hide Inv;
    hide TimerList;
    hide Alarm;
    hide Awake;
    hide Listed;
    hide Past;
    hide MayBlock;
    hide AwakeBook;
    hide BlockedBook;
    CoherentTyped(s, b);
    var add, alarm, awake := DoAdd(p), DoAlarm(p, sec, ns, clock), DoAwake(p, now);
    StepKeeps(s, b, add, idle);
    AfterAdd(s, b, p, idle);
    var s1, b1 := Exec(s, b, add, idle), Record(s, b, add, idle);
    CoherentTyped(s1, b1);
    AfterAlarm(s1, b1, p, sec, ns, idle, clock);
    var s2, b2 := Exec(s1, b1, alarm, idle), Record(s1, b1, alarm, idle);
    AfterAwake(s2, b2, p, idle, now);
    s', b' := Exec(s2, b2, awake, idle), Record(s2, b2, awake, idle);
    assert Runs(s', b', [], idle, s', b');
    hide Runs;
    hide Enabled;
    hide Exec;
    hide Record;
    RunsStep(s2, b2, awake, [], idle, s', b');
    RunsStep(s1, b1, alarm, [awake], idle, s', b');
    RunsStep(s, b, add, [alarm, awake], idle, s', b');
    assert [add] + [alarm, awake] == [add, alarm, awake] && [alarm] + [awake] == [alarm, awake] && [awake] + [] == [awake];
  }

  lemma CoherentTyped(s: Sys, b: Book)
    requires Coherent(s, b)
    ensures Typed(s)
  {
  }

  /** Four steps from boot lead to a state where a running task is the only one on the timer list, and may set an
      alarm again. */
  lemma AlarmedFromBoot(p: Pid, pri: nat, root: nat, sec: nat, ns: nat, idle: nat, clock: Clock, now: nat)
    requires p != 0 && pri < PRI_COUNT && root != idle && !Past(clock, sec, ns)
    ensures exists s, b ::
              Runs(BOOT, EMPTY_BOOK, [Spawn(p, pri, root), DoAdd(p), DoAlarm(p, sec, ns, clock), DoAwake(p, now)], idle, s, b)
              && Coherent(s, b) && b.timer == [p] && MayBlock(s, b, p, idle)
  {
    var step := Spawn(p, pri, root);
    var s1, b1 := Exec(BOOT, EMPTY_BOOK, step, idle), Record(BOOT, EMPTY_BOOK, step, idle);
    BootCoherent();
    StepKeeps(BOOT, EMPTY_BOOK, step, idle);
    var s2, b2 := AddAlarmAwake(s1, b1, p, sec, ns, idle, clock, now);
    var steps := [step, DoAdd(p), DoAlarm(p, sec, ns, clock), DoAwake(p, now)];
    assert steps[1..] == [DoAdd(p), DoAlarm(p, sec, ns, clock), DoAwake(p, now)];
    assert Runs(BOOT, EMPTY_BOOK, steps, idle, s2, b2);
  }
}
