/** The scheduler as the kernel runs it: control blocks are pages of physical memory, and every
    `tcb_t *` is an address behind which a page is mapped. Getting at another task remaps the one
    `tmpmap` window, also behind the pointers obtained from it before. */
module SchedWindow {
  import opened SchedState
  import opened SchedQueues
  import opened SchedTimer
  import SchedPick

  /** The addresses a `tcb_t *` can have. */
  datatype Ptr = AtZero | Tmpmap | Tmp2map | Tmpalarm | BssEnd

  /** What `sched_get_tcb` accepts: a pid, or a pointer that is mapped already. */
  datatype TaskRef = Num(pid: Pid) | Mapped(ptr: Ptr)

  ghost predicate Known(s: Sys, p: Pid) {
    p == 0 || p in s.tcb
  }

  /** The task exists and what its links and the heads name exists. */
  ghost predicate Refs(s: Sys, p: Pid) {
    && Typed(s) && p in s.tcb
    && Known(s, s.tcb[p].next) && Known(s, s.tcb[p].prev)
    && Known(s, s.hdActive[s.tcb[p].priority]) && Known(s, s.hdBlocked)
  }

  lemma InvRefs(s: Sys, q: Queues, p: Pid)
    requires Inv(s, q) && Queued(q, p)
    ensures Refs(s, p)
  {
    QueuedAt(s, q, p);
    var pri := s.tcb[p].priority;
    assert ActiveQueue(s, q.active[pri], pri);
    var m := if s.tcb[p].state == Running then q.active[pri] else q.blocked;
    WithoutMembers(s.tcb, m, p);
    LinkedMembers(s.tcb, m);
  }

  lemma InvKnown(s: Sys, q: Queues)
    requires Inv(s, q)
    ensures forall i :: 0 <= i < PRI_COUNT ==> Known(s, s.hdActive[i]) && Known(s, s.crActive[i])
    ensures forall i :: 0 <= i < PRI_COUNT && s.hdActive[i] == 0 ==> s.crActive[i] == 0
  {
    forall i | 0 <= i < PRI_COUNT
      ensures Known(s, s.hdActive[i]) && Known(s, s.crActive[i])
      ensures s.hdActive[i] == 0 ==> s.crActive[i] == 0
    {
      assert ActiveQueue(s, q.active[i], i);
    }
  }

  class Core {
    var mem: Tasks        // the physical pages that hold control blocks
    var current: Pid      // what is mapped at address 0: the running task
    var tmpmap: Pid
    var tmp2map: Pid
    var tmpalarm: Pid
    var bssEnd: Pid
    var hdTimerq: Pid
    var hdBlocked: Pid
    var hdActive: seq<Pid>
    var crActive: seq<Pid>
    var isrNext: nat

    constructor ()
      ensures S() == Sys(map[], 0, 0, [0, 0, 0, 0, 0, 0, 0, 0], [0, 0, 0, 0, 0, 0, 0, 0], 0)
    {
      mem, current, tmpmap, tmp2map, tmpalarm, bssEnd := map[], 0, 0, 0, 0, 0;
      hdTimerq, hdBlocked, isrNext := 0, 0, 0;
      hdActive, crActive := [0, 0, 0, 0, 0, 0, 0, 0], [0, 0, 0, 0, 0, 0, 0, 0];
    }

    ghost function S(): Sys
      reads this
    {
      Sys(mem, hdTimerq, hdBlocked, hdActive, crActive, isrNext)
    }

    /** The page an address shows at the moment. */
    function Target(t: Ptr): Pid
      reads this
    {
      match t
      case AtZero => current
      case Tmpmap => tmpmap
      case Tmp2map => tmp2map
      case Tmpalarm => tmpalarm
      case BssEnd => bssEnd
    }

    function Get(t: Ptr): Tcb
      requires Target(t) in mem
      reads this
    {
      mem[Target(t)]
    }

    method GetTcb(task: TaskRef) returns (t: Ptr)
      modifies this`tmpmap
      ensures task.Num? && task.pid != 0 ==> t == Tmpmap && tmpmap == task.pid
      ensures !(task.Num? && task.pid != 0) ==> tmpmap == old(tmpmap)
      ensures task.Mapped? ==> t == task.ptr
      ensures task == Num(0) ==> t == AtZero
    {
      match task
      case Mapped(ptr) => return ptr;
      case Num(pid) =>
        if pid == 0 { return AtZero; }
        tmpmap := pid;
        return Tmpmap;
    }

    method PutNext(t: Ptr, v: Pid)
      requires Target(t) in mem
      modifies this`mem
      ensures mem == SetNext(old(mem), Target(t), v)
    {
      mem := mem[Target(t) := Get(t).(next := v)];
    }

    method PutPrev(t: Ptr, v: Pid)
      requires Target(t) in mem
      modifies this`mem
      ensures mem == SetPrev(old(mem), Target(t), v)
    {
      mem := mem[Target(t) := Get(t).(prev := v)];
    }

    method Add(tcb: Ptr)
      requires Typed(S()) && Target(tcb) in mem && Known(S(), hdActive[Get(tcb).priority])
      modifies this`mem, this`hdActive, this`tmpmap
      ensures S() == SchedState.Add(old(S()), old(Target(tcb)))
      ensures tmpmap == old(tmpmap) || tmpmap == old(Target(tcb))
    {
      var pid := Get(tcb).pid;
      var head := hdActive[Get(tcb).priority];
      PutPrev(tcb, 0);
      PutNext(tcb, head);
      BothLinks(old(mem), pid, 0, head);
      hdActive := hdActive[Get(tcb).priority := pid];
      if Get(tcb).next != 0 {
        var t := GetTcb(Num(Get(tcb).next));
        PutPrev(t, pid);
        t := GetTcb(Num(pid));
      }
    }

    method Remove(tcb: Ptr)
      requires Refs(S(), Target(tcb))
      modifies this`mem, this`hdActive, this`crActive, this`tmpmap
      ensures S() == SchedState.Remove(old(S()), old(Target(tcb)))
    {
      var next, prev := Get(tcb).next, Get(tcb).prev;
      ghost var p := Target(tcb);
      PutPrev(tcb, 0);
      PutNext(tcb, 0);
      BothLinks(old(mem), p, 0, 0);
      if hdActive[Get(tcb).priority] == Get(tcb).pid {
        hdActive := hdActive[Get(tcb).priority := next];
      }
      if crActive[Get(tcb).priority] == Get(tcb).pid {
        crActive := crActive[Get(tcb).priority := next];
      }
      Bypass(prev, next);
    }

    /** The neighbours, read from a task's links before, are linked to each other. */
    method Bypass(prev: Pid, next: Pid)
      requires 0 !in mem && Known(S(), prev) && Known(S(), next)
      modifies this`mem, this`tmpmap
      ensures mem == Unlink(old(mem), prev, next)
    {
      if prev != 0 {
        var t := GetTcb(Num(prev));
        PutNext(t, next);
      }
      if next != 0 {
        var t := GetTcb(Num(next));
        PutPrev(t, prev);
      }
    }

    method Put(t: Ptr, c: Tcb)
      requires Target(t) in mem
      modifies this`mem
      ensures mem == old(mem)[Target(t) := c]
    {
      mem := mem[Target(t) := c];
    }

    method Block(tcb: Ptr, idle: nat, now: nat)
      requires Refs(S(), Target(tcb))
      modifies this`mem, this`hdActive, this`crActive, this`hdBlocked, this`tmpmap
      ensures S() == SchedState.Block(old(S()), old(Target(tcb)), idle, now)
    {
      if Get(tcb).memroot == idle {
        return;
      }
      var pid := Get(tcb).pid;
      RefsUpdate(S(), pid, Get(tcb).(blktime := now, state := Blocked));
      Put(tcb, Get(tcb).(blktime := now, state := Blocked));
      Remove(tcb);
      ghost var s0 := old(S()).(tcb := old(mem)[pid := old(mem)[pid].(blktime := now, state := Blocked)]);
      RemoveKeys(s0, pid);
      ghost var s1 := S();
      assert s1 == SchedState.Remove(s0, pid);
      hide SchedState.Remove;
      hide Refs;
      if hdBlocked != 0 {
        var b := GetTcb(Num(hdBlocked));
        PutPrev(b, pid);
      }
      assert mem == SetPrev(s1.tcb, s1.hdBlocked, pid);
      // the window goes back to the caller's task
      var t := GetTcb(Num(pid));
      Put(t, Get(t).(next := hdBlocked, prev := 0, state := Blocked));
      hdBlocked := pid;
    }

    method Awake(tcb: Ptr, now: nat)
      requires Refs(S(), Target(tcb))
      modifies this`mem, this`hdActive, this`hdBlocked, this`isrNext, this`tmpmap
      ensures S() == SchedState.Awake(old(S()), old(Target(tcb)), now)
    {
      if Get(tcb).state == Running {
        assert mem == mem[Target(tcb) := Get(tcb).(state := Running)];
        Put(tcb, Get(tcb).(state := Running));
        isrNext := Get(tcb).memroot;
        return;
      }
      Rouse(tcb, now);
    }

    /** The part for tasks that are not running. */
    method Rouse(tcb: Ptr, now: nat)
      requires Refs(S(), Target(tcb)) && Get(tcb).state != Running
      modifies this`mem, this`hdActive, this`hdBlocked, this`isrNext, this`tmpmap
      ensures S() == SchedState.Awake(old(S()), old(Target(tcb)), now)
    {
      hide Activated;
      ghost var s0, p := S(), Target(tcb);
      Unhybernate(tcb);
      ghost var s1 := S();
      assert s1 == s0.(tcb := s0.tcb[p := s0.tcb[p].(state := Blocked)]);
      var t := Activate(tcb, now);
      ghost var s2 := S();
      assert s2 == Activated(s1, p, now) && Get(t) == s2.tcb[p];
      Put(t, Get(t).(state := Running));
      isrNext := Get(t).memroot;
      assert S() == s2.(tcb := s2.tcb[p := s2.tcb[p].(state := Running)], isrNext := s0.tcb[p].memroot);
    }

    method Unhybernate(tcb: Ptr)
      requires Refs(S(), Target(tcb)) && Get(tcb).state != Running
      modifies this`mem
      ensures mem == old(mem)[Target(tcb) := old(Get(tcb)).(state := Blocked)]
      ensures Refs(S(), Target(tcb))
    {
      if Get(tcb).state == Hybernated {
        Put(tcb, Get(tcb).(state := Blocked));
      }
      assert mem == old(mem)[Target(tcb) := old(Get(tcb)).(state := Blocked)];
    }

    /** The part of `sched_awake` for blocked tasks; the result shows the task again. */
    method Activate(tcb: Ptr, now: nat) returns (t: Ptr)
      requires Refs(S(), Target(tcb))
      modifies this`mem, this`hdActive, this`hdBlocked, this`tmpmap
      ensures Target(t) == old(Target(tcb))
      ensures S() == Activated(old(S()), old(Target(tcb)), now)
      ensures Get(t).memroot == old(Get(tcb).memroot)
    {
      var pid, next, prev := Get(tcb).pid, Get(tcb).next, Get(tcb).prev;
      RefsUpdate(S(), pid, Get(tcb).(blkcnt := Billed(Get(tcb), now), blktime := 0));
      Put(tcb, Get(tcb).(blkcnt := Billed(Get(tcb), now), blktime := 0));
      ghost var s0 := S();
      Add(tcb);
      AddKeys(s0, pid);
      if hdBlocked == pid {
        hdBlocked := next;
      }
      UnlinkKeys(mem, prev, next);
      Bypass(prev, next);
      t := GetTcb(Num(pid));
    }

    /** The alarm window shows the head of the timer list. */
    ghost predicate HeadShown()
      reads this
    {
      hdTimerq != 0 ==> tmpalarm == hdTimerq
    }

    method PutAlarm(t: Ptr, v: Pid)
      requires Target(t) in mem
      modifies this`mem
      ensures mem == SetAlarm(old(mem), Target(t), v)
    {
      mem := mem[Target(t) := Get(t).(alarm := v)];
    }

    method Alarm(tcb: Ptr, sec: nat, ns: nat, idle: nat, clock: Clock, ghost l: seq<Pid>)
      requires Refs(S(), Target(tcb)) && TimerList(S(), l) && HeadShown()
      modifies this`mem, this`hdActive, this`crActive, this`hdBlocked, this`hdTimerq, this`isrNext,
               this`tmpmap, this`tmpalarm
      ensures S() == SchedTimer.Alarm(old(S()), l, old(Target(tcb)), sec, ns, idle, clock)
      ensures HeadShown()
    {
      hide SchedState.Awake;
      hide SchedState.Block;
      hide LinkAlarm;
      // nothing to wait for
      if Past(clock, sec, ns) {
        Awake(tcb, clock.lo);
        AwakeTimerq(old(S()), old(Target(tcb)), clock.lo);
        return;
      }
      var pid := Get(tcb).pid;
      TimedLinks(S(), l, pid, sec, ns, idle, clock.lo);
      Block(tcb, idle, clock.lo);
      BlockTimerq(old(S()), pid, idle, clock.lo);
      // the window goes back to the caller's task
      var t := GetTcb(Num(pid));
      Put(t, Get(t).(alarmsec := sec, alarmns := ns));
      ghost var s1 := S();
      assert s1 == Timed(SchedState.Block(old(S()), pid, idle, clock.lo), pid, sec, ns);
      Enlist(t, pid, sec, ns, l);
    }

    /** What the timer interrupt does with the timer list: its head, shown in the alarm window, is woken and taken off when it is due. */
    method Tick(clock: Clock)
      requires HeadShown() && (hdTimerq != 0 ==> Refs(S(), hdTimerq))
      modifies this`mem, this`hdActive, this`hdBlocked, this`hdTimerq, this`isrNext, this`tmpmap, this`tmpalarm
      ensures S() == if old(hdTimerq) != 0 && Due(old(mem[hdTimerq]), clock) then Expire(old(S()), clock) else old(S())
      ensures HeadShown()
    {
      if hdTimerq == 0 || !Due(Get(Tmpalarm), clock) {
        return;
      }
      ghost var s, h := S(), hdTimerq;
      Awake(Tmpalarm, clock.lo);
      AwakeTimerq(s, h, clock.lo);
      TimesAfterAwake(s, h, clock.lo);
      hdTimerq := Get(Tmpalarm).alarm;
      assert SetAlarm(mem, h, mem[h].alarm) == mem;
      if hdTimerq != 0 {
        PutAlarm(Tmpalarm, 0);
        tmpalarm := hdTimerq;
      }
    }

    /** The part of `sched_alarm` that links the task into the timer list. */
    method Enlist(t: Ptr, pid: Pid, sec: nat, ns: nat, ghost l: seq<Pid>)
      requires TimerLinks(S(), l) && HeadShown() && t == Tmpmap && tmpmap == pid && pid in mem
      modifies this`mem, this`hdTimerq, this`tmpmap, this`tmpalarm
      ensures S() == LinkAlarm(old(S()), l, pid, Position(old(mem), l, sec, ns))
      ensures HeadShown()
    {
      TimerMembers(S(), l);
      if hdTimerq == 0 || Later(Get(Tmpalarm), sec, ns) {
        PutAlarm(t, hdTimerq);
        hdTimerq := pid;
        // the second window follows the new head
        tmpalarm := hdTimerq;
      } else {
        Walk(pid, sec, ns, l);
      }
    }

    method Walk(pid: Pid, sec: nat, ns: nat, ghost l: seq<Pid>)
      requires TimerLinks(S(), l) && pid in mem && l != [] && l[0] in mem && !Later(mem[l[0]], sec, ns)
      modifies this`mem, this`tmpmap
      ensures S() == LinkAlarm(old(S()), l, pid, Position(old(mem), l, sec, ns))
    {
      hide Position;
      hide TimerLinks;
      var next, prev := hdTimerq, 0;
      ghost var i := 0;
      ghost var k := Position(mem, l, sec, ns);
      TimerMembers(S(), l);
      AtNode(S(), l, 0);
      while next != 0
        invariant i < |l| && i <= k && next == l[i] && prev == At(l, i - 1)
        invariant mem == old(mem)
        decreases |l| - i
      {
        var u := GetTcb(Num(next));
        AtNode(old(S()), l, i);
        // in front of this one
        if Later(Get(u), sec, ns) {
          if prev != 0 {
            u := GetTcb(Num(prev));
            PutAlarm(u, pid);
          }
          u := GetTcb(Num(pid));
          PutAlarm(u, next);
          assert i == k && i > 0 && prev == l[k - 1] && next == l[k];
          assert mem == SetAlarm(SetAlarm(old(mem), l[k - 1], pid), pid, l[k]);
          return;
        }
        // behind the last one
        if Get(u).alarm == 0 {
          PutAlarm(u, pid);
          assert i + 1 == |l| == k;
          assert mem == SetAlarm(old(mem), l[k - 1], pid);
          return;
        }
        prev := next;
        next := Get(u).alarm;
        i := i + 1;
      }
    }

    /** One pass over the priority queues: the first queue whose cursor is on a task, `PRI_IDLE` if none. */
    method Pass(wasNonempty: bool) returns (i: nat, nonempty: bool)
      requires |hdActive| == |crActive| == PRI_COUNT
      modifies this`crActive
      ensures |crActive| == PRI_COUNT && i <= PRI_IDLE
      ensures Scanned(crActive, i) == Scan(hdActive, old(crActive), 0)
      ensures nonempty <==> wasNonempty || i < PRI_IDLE || AnyReady(hdActive)
    {
      i, nonempty := 0, wasNonempty;
      while i < PRI_IDLE
        invariant i <= PRI_IDLE && |crActive| == PRI_COUNT
        invariant Scan(hdActive, old(crActive), 0) == Scan(hdActive, crActive, i)
        invariant nonempty <==> wasNonempty || exists j :: 0 <= j < i && hdActive[j] != 0
      {
        // nobody here
        if hdActive[i] == 0 {
          i := i + 1;
          continue;
        }
        nonempty := true;
        // this queue has had its turn
        if crActive[i] == 0 {
          crActive := crActive[i := hdActive[i]];
          i := i + 1;
          continue;
        }
        return;
      }
    }

    method Pick(idle: nat) returns (root: nat)
      requires Typed(S()) && current in mem
      requires forall i :: 0 <= i < PRI_COUNT ==> Known(S(), hdActive[i]) && Known(S(), crActive[i])
      requires forall i :: 0 <= i < PRI_COUNT && hdActive[i] == 0 ==> crActive[i] == 0
      modifies this`crActive, this`isrNext, this`tmpmap
      ensures S() == SchedState.Pick(old(S()), mem[current].pid, idle)
      ensures root == var p := Chosen(old(S())); if p in mem then mem[p].memroot else idle
      ensures Chosen(old(S())) != mem[current].pid ==> isrNext == root
      ensures Chosen(old(S())) == mem[current].pid ==> isrNext == old(isrNext)
    {
      var i, nonempty := Pass(false);
      ghost var first := Scanned(crActive, i);
      assert first == Scan(hdActive, old(crActive), 0);
      SchedPick.ScanSpec(hdActive, old(crActive), 0);
      // all queues have had their turn
      if i == PRI_IDLE && nonempty {
        SchedPick.ScanSpec(hdActive, crActive, 0);
        i, nonempty := Pass(nonempty);
        assert i < PRI_IDLE;
      }
      ghost var c := Choose(hdActive, old(crActive));
      if i == PRI_IDLE {
        if hdActive[i] == 0 {
          isrNext := idle;
          return idle;
        }
        if crActive[i] == 0 {
          crActive := crActive[i := hdActive[i]];
        }
      }
      assert c == Scanned(crActive, i);
      var tcb := GetTcb(Num(crActive[i]));
      crActive := crActive[i := Get(tcb).next];
      if Get(AtZero).pid != Get(tcb).pid {
        isrNext := Get(tcb).memroot;
      }
      root := Get(tcb).memroot;
    }
  }

  lemma AwakeTimerq(s: Sys, p: Pid, now: nat)
    requires Typed(s) && p in s.tcb
    ensures Awake(s, p, now).hdTimerq == s.hdTimerq
  {
  }

  lemma BlockTimerq(s: Sys, p: Pid, idle: nat, now: nat)
    requires Typed(s) && p in s.tcb
    ensures Block(s, p, idle, now).hdTimerq == s.hdTimerq
    ensures Block(s, p, idle, now).tcb.Keys == s.tcb.Keys
  {
    TimesAfterBlock(s, p, idle, now);
  }

  lemma AtNode(s: Sys, l: seq<Pid>, i: nat)
    requires TimerLinks(s, l) && i < |l|
    ensures 0 !in s.tcb && s.hdTimerq == l[0] && l[i] in s.tcb && s.tcb[l[i]].alarm == At(l, i + 1)
  {
    assert TimerNode(s.tcb, l, i);
  }

  lemma RefsUpdate(s: Sys, p: Pid, c: Tcb)
    requires Refs(s, p) && c.pid == p && c.priority == s.tcb[p].priority
    requires c.next == s.tcb[p].next && c.prev == s.tcb[p].prev
    ensures Refs(s.(tcb := s.tcb[p := c]), p)
  {
  }

  lemma UnlinkKeys(t: Tasks, prev: Pid, next: Pid)
    ensures Unlink(t, prev, next).Keys == t.Keys
    ensures forall x <- t :: Unlink(t, prev, next)[x].memroot == t[x].memroot
  {
  }

  lemma RemoveKeys(s: Sys, p: Pid)
    requires Typed(s) && p in s.tcb
    ensures Remove(s, p).tcb.Keys == s.tcb.Keys && Remove(s, p).hdBlocked == s.hdBlocked
  {
  }

  lemma AddKeys(s: Sys, p: Pid)
    requires Typed(s) && p in s.tcb
    ensures Add(s, p).tcb.Keys == s.tcb.Keys && Add(s, p).hdBlocked == s.hdBlocked
    ensures Add(s, p).tcb[p].memroot == s.tcb[p].memroot
  {
  }

  lemma BothLinks(t: Tasks, p: Pid, prev: Pid, next: Pid)
    requires p in t
    ensures SetNext(SetPrev(t, p, prev), p, next) == t[p := t[p].(prev := prev, next := next)]
  {
  }
}
