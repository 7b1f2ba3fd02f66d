/** The timer list: tasks that sleep until an alarm, linked through the `alarm` field and
    sorted by wake-up time. */
module SchedTimer {
  import opened SchedState
  import opened SchedQueues

  predicate Later(c: Tcb, sec: nat, ns: nat) {
    c.alarmsec > sec || (c.alarmsec == sec && c.alarmns > ns)
  }

  ghost predicate TimerNode(t: Tasks, l: seq<Pid>, i: nat)
    requires i < |l|
  {
    l[i] in t && t[l[i]].alarm == At(l, i + 1)
  }

  ghost predicate Ordered(t: Tasks, l: seq<Pid>) {
    forall i, j :: 0 <= i < j < |l| && l[i] in t && l[j] in t ==> !Later(t[l[i]], t[l[j]].alarmsec, t[l[j]].alarmns)
  }

  /** `l` is what the alarm links spell out, without repetition, and no other task has one. */
  ghost predicate TimerLinks(s: Sys, l: seq<Pid>) {
    && 0 !in s.tcb
    && Distinct(l)
    && s.hdTimerq == At(l, 0)
    && (forall i :: 0 <= i < |l| ==> TimerNode(s.tcb, l, i))
    && forall x <- s.tcb :: x !in l ==> s.tcb[x].alarm == 0
  }

  /** The timer list: linked, acyclic and sorted. */
  ghost predicate TimerList(s: Sys, l: seq<Pid>) {
    TimerLinks(s, l) && Ordered(s.tcb, l)
  }

  // ----- setting an alarm

  /** How many members of `l`, from the front, are not later than the given time. */
  ghost function Position(t: Tasks, l: seq<Pid>, sec: nat, ns: nat): (k: nat)
    ensures k <= |l|
    ensures forall i :: 0 <= i < k ==> l[i] in t && !Later(t[l[i]], sec, ns)
    ensures k < |l| && l[k] in t ==> Later(t[l[k]], sec, ns)
  {
    if l == [] || l[0] !in t || Later(t[l[0]], sec, ns) then 0 else 1 + Position(t, l[1..], sec, ns)
  }

  function SetAlarm(t: Tasks, p: Pid, v: Pid): Tasks {
    if p in t then t[p := t[p].(alarm := v)] else t
  }

  /** The link writes of `sched_alarm`; appending does not touch the task's own link. */
  ghost function LinkAlarm(s: Sys, l: seq<Pid>, p: Pid, k: nat): Sys
    requires k <= |l|
  {
    if k == 0 then s.(tcb := SetAlarm(s.tcb, p, s.hdTimerq), hdTimerq := p)
    else if k < |l| then s.(tcb := SetAlarm(SetAlarm(s.tcb, l[k - 1], p), p, l[k]))
    else s.(tcb := SetAlarm(s.tcb, l[k - 1], p))
  }

  datatype Clock = Clock(ts: nat, nts: nat, lo: nat)

  predicate Past(clock: Clock, sec: nat, ns: nat) {
    clock.ts > sec || (clock.ts == sec && clock.nts > ns)
  }

  ghost function Timed(s: Sys, p: Pid, sec: nat, ns: nat): Sys
    requires p in s.tcb
  {
    s.(tcb := s.tcb[p := s.tcb[p].(alarmsec := sec, alarmns := ns)])
  }

  /** `sched_alarm`, given the list `l` that the links spell out. */
  ghost function Alarm(s: Sys, l: seq<Pid>, p: Pid, sec: nat, ns: nat, idle: nat, clock: Clock): Sys
    requires p in s.tcb && s.tcb[p].priority < |s.hdActive| == |s.crActive|
  {
    if Past(clock, sec, ns) then Awake(s, p, clock.lo)
    else
      var s1 := Timed(Block(s, p, idle, clock.lo), p, sec, ns);
      LinkAlarm(s1, l, p, Position(s1.tcb, l, sec, ns))
  }

  /** The time of the first alarm has come. */
  predicate Due(c: Tcb, clock: Clock) {
    c.alarmsec < clock.ts || (c.alarmsec == clock.ts && c.alarmns <= clock.nts)
  }

  /** A time as one number, with `units` to a second. */
  function Instant(sec: nat, ns: nat, units: nat): nat {
    sec * units + ns
  }

  lemma InstantOrder(a: nat, x: nat, b: nat, y: nat, units: nat)
    requires x < units && y < units
    ensures Instant(a, x, units) < Instant(b, y, units) <==> a < b || (a == b && x < y)
  {
    if a < b {
      assert (a + 1) * units <= b * units;
    } else if b < a {
      assert (b + 1) * units <= a * units;
    }
  }

  /** The three comparisons of times agree with each other: an alarm is past when its time is before the clock's, it is
      due when its time has come, and the list is in the order of time. So a past alarm would be due at once, and one
      that is not past is due as soon as the clock gets there. */
  lemma TimesAgree(c: Tcb, sec: nat, ns: nat, clock: Clock, units: nat)
    requires c.alarmns < units && ns < units && clock.nts < units
    ensures Past(clock, sec, ns) <==> Instant(sec, ns, units) < Instant(clock.ts, clock.nts, units)
    ensures Due(c, clock) <==> Instant(c.alarmsec, c.alarmns, units) <= Instant(clock.ts, clock.nts, units)
    ensures Later(c, sec, ns) <==> Instant(sec, ns, units) < Instant(c.alarmsec, c.alarmns, units)
  {
    InstantOrder(sec, ns, clock.ts, clock.nts, units);
    InstantOrder(clock.ts, clock.nts, c.alarmsec, c.alarmns, units);
    InstantOrder(sec, ns, c.alarmsec, c.alarmns, units);
    hide Instant;
  }

  /** The timer interrupt wakes the head of the list and takes it off. */
  function Expire(s: Sys, clock: Clock): Sys
    requires s.hdTimerq in s.tcb && s.tcb[s.hdTimerq].priority < |s.hdActive|
  {
    var h := s.hdTimerq;
    var s1 := Awake(s, h, clock.lo);
    s1.(hdTimerq := s.tcb[h].alarm, tcb := SetAlarm(s1.tcb, h, 0))
  }

  // ----- the queue operations leave the timer list alone

  function Times(c: Tcb): (Pid, nat, nat) {
    (c.alarm, c.alarmsec, c.alarmns)
  }

  ghost predicate SameTimes(t: Tasks, t': Tasks) {
    t'.Keys == t.Keys && forall x <- t :: Times(t'[x]) == Times(t[x])
  }

  lemma SameTimesUnlink(t: Tasks, prev: Pid, next: Pid)
    ensures SameTimes(t, Unlink(t, prev, next))
  {
    var t1 := SetNext(t, prev, next);
    assert SameTimes(t, t1);
    assert SameTimes(t1, SetPrev(t1, next, prev));
  }

  lemma SameTimesSetPrev(t: Tasks, p: Pid, v: Pid)
    ensures SameTimes(t, SetPrev(t, p, v))
  {
  }

  lemma SameTimesUpdate(t: Tasks, p: Pid, c: Tcb)
    requires p in t && Times(c) == Times(t[p])
    ensures SameTimes(t, t[p := c])
  {
  }

  lemma TimerFrame(s: Sys, s': Sys, l: seq<Pid>)
    requires TimerList(s, l) && s'.hdTimerq == s.hdTimerq && SameTimes(s.tcb, s'.tcb)
    ensures TimerList(s', l)
  {
    forall i | 0 <= i < |l|
      ensures TimerNode(s'.tcb, l, i)
    {
      assert TimerNode(s.tcb, l, i) && Times(s'.tcb[l[i]]) == Times(s.tcb[l[i]]);
    }
    OrderedFrame(s.tcb, s'.tcb, l);
    forall x <- s'.tcb | x !in l
      ensures s'.tcb[x].alarm == 0
    {
      assert Times(s'.tcb[x]) == Times(s.tcb[x]);
    }
  }

  lemma OrderedFrame(t: Tasks, t': Tasks, l: seq<Pid>)
    requires Ordered(t, l) && t'.Keys == t.Keys
    requires forall x <- t :: Times(t'[x]).1 == Times(t[x]).1 && Times(t'[x]).2 == Times(t[x]).2
    ensures Ordered(t', l)
  {
    forall i, j | 0 <= i < j < |l| && l[i] in t && l[j] in t
      ensures !Later(t'[l[i]], t'[l[j]].alarmsec, t'[l[j]].alarmns)
    {
      var a, b := l[i], l[j];
      assert !Later(t[a], t[b].alarmsec, t[b].alarmns);
      assert Times(t'[a]).1 == Times(t[a]).1 && Times(t'[b]).1 == Times(t[b]).1;
    }
  }

  lemma TimesAfterRemove(s: Sys, p: Pid)
    requires p in s.tcb && s.tcb[p].priority < |s.hdActive| == |s.crActive|
    ensures SameTimes(s.tcb, Remove(s, p).tcb)
  {
    var c := s.tcb[p];
    var t := s.tcb[p := c.(prev := 0, next := 0)];
    SameTimesUpdate(s.tcb, p, c.(prev := 0, next := 0));
    SameTimesUnlink(t, c.prev, c.next);
  }

  lemma TimesAfterBlock(s: Sys, p: Pid, idle: nat, now: nat)
    requires p in s.tcb && s.tcb[p].priority < |s.hdActive| == |s.crActive|
    ensures SameTimes(s.tcb, Block(s, p, idle, now).tcb)
  {
    if s.tcb[p].memroot != idle {
      var c := s.tcb[p];
      SameTimesUpdate(s.tcb, p, c.(blktime := now, state := Blocked));
      var s0 := s.(tcb := s.tcb[p := c.(blktime := now, state := Blocked)]);
      TimesAfterRemove(s0, p);
      var s1 := Remove(s0, p);
      SameTimesSetPrev(s1.tcb, s1.hdBlocked, p);
      var t1 := SetPrev(s1.tcb, s1.hdBlocked, p);
      SameTimesUpdate(t1, p, t1[p].(next := s1.hdBlocked, prev := 0, state := Blocked));
    }
  }

  lemma TimesAfterAdd(s: Sys, p: Pid)
    requires p in s.tcb && s.tcb[p].priority < |s.hdActive|
    ensures SameTimes(s.tcb, Add(s, p).tcb)
  {
    var h := s.hdActive[s.tcb[p].priority];
    SameTimesUpdate(s.tcb, p, s.tcb[p].(prev := 0, next := h));
    SameTimesSetPrev(s.tcb[p := s.tcb[p].(prev := 0, next := h)], h, p);
  }

  lemma TimesAfterAwake(s: Sys, p: Pid, now: nat)
    requires p in s.tcb && s.tcb[p].priority < |s.hdActive|
    ensures SameTimes(s.tcb, Awake(s, p, now).tcb)
  {
    var c := s.tcb[p];
    if c.state != Running {
      var c1 := c.(state := Blocked);
      var t0 := s.tcb[p := c1];
      SameTimesUpdate(s.tcb, p, c1);
      SameTimesUpdate(t0, p, c1.(blkcnt := Billed(c1, now), blktime := 0));
      var s0 := s.(tcb := t0[p := c1.(blkcnt := Billed(c1, now), blktime := 0)]);
      TimesAfterAdd(s0, p);
      var s1 := Add(s0, p);
      SameTimesUnlink(s1.tcb, c.prev, c.next);
      var t1 := Unlink(s1.tcb, c.prev, c.next);
      SameTimesUpdate(t1, p, t1[p].(state := Running));
    }
  }

  // ----- insertion

  lemma TimerMembers(s: Sys, l: seq<Pid>)
    requires TimerLinks(s, l)
    ensures forall i :: 0 <= i < |l| ==> l[i] in s.tcb && l[i] != 0
  {
    forall i | 0 <= i < |l|
      ensures l[i] in s.tcb
    {
      assert TimerNode(s.tcb, l, i);
    }
  }

  ghost function Inserted(l: seq<Pid>, k: nat, p: Pid): seq<Pid>
    requires k <= |l|
  {
    l[..k] + [p] + l[k..]
  }

  lemma LinkAlarmNode(s: Sys, l: seq<Pid>, p: Pid, k: nat, i: nat)
    requires TimerList(s, l) && p in s.tcb && p !in l && k <= |l| && i <= |l|
    ensures TimerNode(LinkAlarm(s, l, p, k).tcb, Inserted(l, k, p), i)
  {
    var l' := Inserted(l, k, p);
    assert s.tcb[p].alarm == 0;
    if i == k {
    } else {
      var j := if i < k then i else i - 1;
      assert TimerNode(s.tcb, l, j) && l'[i] == l[j];
    }
  }

  lemma InsertedMembers(l: seq<Pid>, k: nat, p: Pid)
    requires k <= |l| && Distinct(l) && p !in l
    ensures Distinct(Inserted(l, k, p))
    ensures forall x :: x in Inserted(l, k, p) <==> x == p || x in l
  {
    var l' := Inserted(l, k, p);
    assert forall i :: 0 <= i < |l| ==> l[i] == l'[if i < k then i else i + 1];
    assert l'[k] == p;
  }

  /** The task goes behind every member that is not later, so equal times stay in order of request. */
  lemma LinkAlarmInserts(s: Sys, l: seq<Pid>, p: Pid)
    requires TimerList(s, l) && p in s.tcb && p !in l
    ensures var k := Position(s.tcb, l, s.tcb[p].alarmsec, s.tcb[p].alarmns);
            TimerList(LinkAlarm(s, l, p, k), Inserted(l, k, p))
  {
    var k := Position(s.tcb, l, s.tcb[p].alarmsec, s.tcb[p].alarmns);
    var s', l' := LinkAlarm(s, l, p, k), Inserted(l, k, p);
    forall i | 0 <= i < |l'|
      ensures TimerNode(s'.tcb, l', i)
    {
      LinkAlarmNode(s, l, p, k, i);
    }
    LinkAlarmRest(s, l, p, k);
    InsertedMembers(l, k, p);
    InsertOrdered(s.tcb, l, p, k);
    OrderedFrame(s.tcb, s'.tcb, l');
  }

  lemma LinkAlarmRest(s: Sys, l: seq<Pid>, p: Pid, k: nat)
    requires TimerList(s, l) && p in s.tcb && k <= |l|
    ensures var t' := LinkAlarm(s, l, p, k).tcb;
            && t'.Keys == s.tcb.Keys
            && (forall i :: 0 <= i < |l| ==> l[i] in s.tcb)
            && (forall x <- s.tcb :: Times(t'[x]).1 == Times(s.tcb[x]).1 && Times(t'[x]).2 == Times(s.tcb[x]).2)
            && (forall x <- s.tcb :: x != p && x !in l ==> t'[x].alarm == 0)
            && LinkAlarm(s, l, p, k).hdTimerq == if k == 0 then p else s.hdTimerq
  {
    TimerMembers(s, l);
  }

  lemma InsertOrdered(t: Tasks, l: seq<Pid>, p: Pid, k: nat)
    requires Ordered(t, l) && p in t && k <= |l|
    requires forall i :: 0 <= i < |l| ==> l[i] in t
    requires k == Position(t, l, t[p].alarmsec, t[p].alarmns)
    ensures Ordered(t, Inserted(l, k, p))
  {
    var l' := Inserted(l, k, p);
    forall i, j | 0 <= i < j < |l'|
      ensures !Later(t[l'[i]], t[l'[j]].alarmsec, t[l'[j]].alarmns)
    {
      if i == k {
        assert l'[j] == l[j - 1];
        if j - 1 > k { assert !Later(t[l[k]], t[l[j - 1]].alarmsec, t[l[j - 1]].alarmns); }
      }
    }
  }

  // ----- sched_alarm as a whole

  lemma TimedLinks(s: Sys, l: seq<Pid>, p: Pid, sec: nat, ns: nat, idle: nat, now: nat)
    requires TimerList(s, l) && p in s.tcb && s.tcb[p].priority < |s.hdActive| == |s.crActive|
    ensures var s1 := Timed(Block(s, p, idle, now), p, sec, ns);
            && TimerLinks(s1, l) && p in s1.tcb && s1.tcb[p].alarmsec == sec && s1.tcb[p].alarmns == ns
            && s1.tcb.Keys == s.tcb.Keys
            && (forall x <- s.tcb :: x != p ==> Times(s1.tcb[x]) == Times(s.tcb[x]))
            && (p !in l ==> TimerList(s1, l))
  {
    TimesAfterBlock(s, p, idle, now);
    var s0 := Block(s, p, idle, now);
    var s1 := Timed(s0, p, sec, ns);
    TimerFrame(s, s0, l);
    forall i | 0 <= i < |l|
      ensures TimerNode(s1.tcb, l, i)
    {
      assert TimerNode(s0.tcb, l, i);
    }
  }

  /** A task off the timer list is inserted behind all members that are not later; the list gains
      exactly this member, stays sorted, and its head is the earliest. */
  lemma AlarmInserts(s: Sys, l: seq<Pid>, p: Pid, sec: nat, ns: nat, idle: nat, clock: Clock) returns (k: nat)
    requires TimerList(s, l) && p in s.tcb && s.tcb[p].priority < |s.hdActive| == |s.crActive|
    requires !Past(clock, sec, ns) && p !in l
    ensures k <= |l| && forall i :: 0 <= i < |l| ==> l[i] in s.tcb && (i < k <==> !Later(s.tcb[l[i]], sec, ns))
    ensures TimerList(Alarm(s, l, p, sec, ns, idle, clock), Inserted(l, k, p))
  {
    TimedLinks(s, l, p, sec, ns, idle, clock.lo);
    var s1 := Timed(Block(s, p, idle, clock.lo), p, sec, ns);
    LinkAlarmInserts(s1, l, p);
    k := Position(s1.tcb, l, sec, ns);
    TimerMembers(s, l);
    forall i | 0 <= i < |l|
      ensures i < k <==> !Later(s.tcb[l[i]], sec, ns)
    {
      assert Times(s1.tcb[l[i]]) == Times(s.tcb[l[i]]);
      if i > k {
        assert Times(s1.tcb[l[k]]) == Times(s.tcb[l[k]]);
        assert !Later(s.tcb[l[k]], s.tcb[l[i]].alarmsec, s.tcb[l[i]].alarmns);
      }
    }
  }

  /** What the links from the head onwards say is a prefix of the list. */
  lemma {:induction false} Follow(s: Sys, m: seq<Pid>, l: seq<Pid>)
    requires TimerLinks(s, l) && m != [] && m[0] == s.hdTimerq
    requires forall i :: 0 <= i < |m| ==> m[i] in s.tcb
    requires forall i, j :: 0 <= i && j == i + 1 < |m| ==> s.tcb[m[i]].alarm == m[j]
    ensures |m| <= |l| && m == l[..|m|]
  {
    if |m| > 1 {
      var n := |m| - 1;
      Follow(s, m[..n], l);
      assert TimerNode(s.tcb, l, n - 1) && l[n - 1] == m[n - 1];
      assert s.tcb[m[n - 1]].alarm == m[n];
    }
  }

  lemma FollowAll(s: Sys, m: seq<Pid>, l: seq<Pid>)
    requires TimerLinks(s, l) && m != [] && m[0] == s.hdTimerq
    requires forall i :: 0 <= i < |m| ==> m[i] in s.tcb
    requires forall i, j :: 0 <= i && j == i + 1 < |m| ==> s.tcb[m[i]].alarm == m[j]
    requires s.tcb[m[|m| - 1]].alarm == 0
    ensures l == m
  {
    Follow(s, m, l);
    assert TimerNode(s.tcb, l, |m| - 1);
    TimerMembers(s, l);
  }

  /** The task is at `j`, and the new time falls between the times of its neighbours. */
  ghost predicate InPlaceAt(s: Sys, l: seq<Pid>, p: Pid, sec: nat, ns: nat, j: nat) {
    && j + 1 < |l| && l[j] == p
    && (forall i :: 0 <= i < j ==> l[i] in s.tcb && !Later(s.tcb[l[i]], sec, ns))
    && l[j + 1] in s.tcb && Later(s.tcb[l[j + 1]], sec, ns)
  }

  ghost predicate InPlace(s: Sys, l: seq<Pid>, p: Pid, sec: nat, ns: nat) {
    exists j :: InPlaceAt(s, l, p, sec, ns, j)
  }

  /** A chain from the head that comes back to a task it passed is no list. */
  lemma Cyclic(s: Sys, m: seq<Pid>, i: nat, j: nat, l: seq<Pid>)
    requires i < j < |m| && m[i] == m[j] && m[0] == s.hdTimerq
    requires forall i :: 0 <= i < |m| ==> m[i] in s.tcb
    requires forall i, j :: 0 <= i && j == i + 1 < |m| ==> s.tcb[m[i]].alarm == m[j]
    ensures !TimerLinks(s, l)
  {
    if TimerLinks(s, l) {
      Follow(s, m, l);
    }
  }

  ghost predicate Member(s: Sys, l: seq<Pid>, p: Pid, j: nat) {
    TimerLinks(s, l) && j < |l| && l[j] == p
  }

  lemma MemberLinks(s: Sys, l: seq<Pid>, p: Pid, j: nat)
    requires Member(s, l, p, j)
    ensures forall i :: 0 <= i < |l| ==> l[i] in s.tcb && l[i] != 0
    ensures forall i, n :: 0 <= i && n == i + 1 < |l| ==> s.tcb[l[i]].alarm == l[n]
    ensures s.tcb[l[|l| - 1]].alarm == 0 && l[0] == s.hdTimerq
  {
    forall i | 0 <= i < |l|
      ensures l[i] in s.tcb && s.tcb[l[i]].alarm == At(l, i + 1)
    {
      assert TimerNode(s.tcb, l, i);
    }
  }

  lemma RelinkFront(s: Sys, l: seq<Pid>, p: Pid, j: nat, l': seq<Pid>)
    requires Member(s, l, p, j) && j > 0
    ensures !TimerLinks(LinkAlarm(s, l, p, 0), l')
  {
    MemberLinks(s, l, p, j);
    var m := [p] + l[..j + 1];
    assert m[j + 1] == l[j] == p == m[0] && m[1] == l[0];
    Cyclic(LinkAlarm(s, l, p, 0), m, 0, j + 1, l');
  }

  lemma RelinkBefore(s: Sys, l: seq<Pid>, p: Pid, j: nat, k: nat, l': seq<Pid>)
    requires Member(s, l, p, j) && 0 < k < j
    ensures !TimerLinks(LinkAlarm(s, l, p, k), l')
  {
    MemberLinks(s, l, p, j);
    var s', m := LinkAlarm(s, l, p, k), l[..k] + [p] + l[k..j + 1];
    assert m[k] == p == m[j + 1];
    assert s'.tcb == SetAlarm(SetAlarm(s.tcb, l[k - 1], p), p, l[k]);
    forall i | 0 <= i < |m|
      ensures m[i] in s'.tcb
    {
      MiddleAt(l, p, k, j, i);
    }
    forall i, n | 0 <= i && n == i + 1 < |m|
      ensures s'.tcb[m[i]].alarm == m[n]
    {
      MiddleAt(l, p, k, j, i);
      MiddleAt(l, p, k, j, n);
    }
    Cyclic(s', m, k, j + 1, l');
  }

  lemma MiddleAt(l: seq<Pid>, p: Pid, k: nat, j: nat, i: nat)
    requires k <= j < |l| && i <= j + 1
    ensures (l[..k] + [p] + l[k..j + 1])[i] == if i < k then l[i] else if i == k then p else l[i - 1]
  {
  }

  lemma RelinkEnd(s: Sys, l: seq<Pid>, p: Pid, j: nat, l': seq<Pid>)
    requires Member(s, l, p, j)
    ensures !TimerLinks(LinkAlarm(s, l, p, |l|), l')
  {
    MemberLinks(s, l, p, j);
    var m := l + [p];
    assert m[j] == p == m[|l|];
    Cyclic(LinkAlarm(s, l, p, |l|), m, j, |l|, l');
  }

  lemma RelinkAfter(s: Sys, l: seq<Pid>, p: Pid, j: nat, k: nat, l': seq<Pid>)
    requires Member(s, l, p, j) && j + 1 < k < |l|
    ensures !TimerLinks(LinkAlarm(s, l, p, k), l')
  {
    var s', m, x := LinkAlarm(s, l, p, k), l[..j + 1] + l[k..], l[j + 1];
    MemberLinks(s, l, p, j);
    assert s'.tcb == SetAlarm(SetAlarm(s.tcb, l[k - 1], p), p, l[k]);
    forall i, n | 0 <= i && n == i + 1 < |m|
      ensures s'.tcb[m[i]].alarm == m[n]
    {
      var a := if i <= j then i else i + k - j - 1;
      assert m[i] == l[a] && a != k - 1;
      assert m[n] == if i == j then l[k] else l[a + 1];
    }
    assert m[|m| - 1] == l[|l| - 1] && s'.tcb[l[|l| - 1]].alarm == 0;
    assert s.tcb[x].alarm == l[j + 2];
    assert x !in m && s'.tcb[x].alarm != 0;
    if TimerLinks(s', l') {
      FollowAll(s', m, l');
    }
  }

  lemma RelinkInPlace(s: Sys, l: seq<Pid>, p: Pid, j: nat)
    requires Member(s, l, p, j) && j + 1 < |l|
    ensures LinkAlarm(s, l, p, j + 1) == s
  {
    MemberLinks(s, l, p, j);
    assert s.tcb[p].alarm == l[j + 1];
    assert SetAlarm(SetAlarm(s.tcb, p, p), p, l[j + 1]) == s.tcb;
  }

  lemma RelinkIff(s: Sys, l: seq<Pid>, p: Pid, j: nat, k: nat)
    requires Member(s, l, p, j) && k <= |l| && k != j
    ensures (exists l' :: TimerLinks(LinkAlarm(s, l, p, k), l')) <==> k == j + 1 < |l|
    ensures k == j + 1 < |l| ==> LinkAlarm(s, l, p, k) == s
  {
    if k == j + 1 < |l| {
      RelinkInPlace(s, l, p, j);
    } else {
      forall l'
        ensures !TimerLinks(LinkAlarm(s, l, p, k), l')
      {
        if k == 0 {
          RelinkFront(s, l, p, j, l');
        } else if k == |l| {
          RelinkEnd(s, l, p, j, l');
        } else if k < j {
          RelinkBefore(s, l, p, j, k, l');
        } else {
          RelinkAfter(s, l, p, j, k, l');
        }
      }
    }
  }

  /** After `sched_alarm` the links still form a sorted list exactly when the task was not on it,
      or was on it and its new time falls between those of its neighbours. */
  lemma AlarmIff(s: Sys, l: seq<Pid>, p: Pid, sec: nat, ns: nat, idle: nat, clock: Clock)
    requires TimerList(s, l) && p in s.tcb && s.tcb[p].priority < |s.hdActive| == |s.crActive|
    requires !Past(clock, sec, ns)
    ensures (exists l' :: TimerList(Alarm(s, l, p, sec, ns, idle, clock), l'))
       <==> p !in l || InPlace(s, l, p, sec, ns)
  {
    if p !in l {
      var k := AlarmInserts(s, l, p, sec, ns, idle, clock);
    } else {
      var j :| 0 <= j < |l| && l[j] == p;
      TimedLinks(s, l, p, sec, ns, idle, clock.lo);
      var s1 := Timed(Block(s, p, idle, clock.lo), p, sec, ns);
      var k := Position(s1.tcb, l, sec, ns);
      RelinkIff(s1, l, p, j, k);
      InPlacePosition(s, s1, l, p, sec, ns, j);
      assert Alarm(s, l, p, sec, ns, idle, clock) == LinkAlarm(s1, l, p, k);
      if k == j + 1 < |l| {
        InPlaceOrdered(s, s1, l, p, sec, ns, j);
        assert TimerList(LinkAlarm(s1, l, p, k), l);
      }
    }
  }

  lemma InPlacePosition(s: Sys, s1: Sys, l: seq<Pid>, p: Pid, sec: nat, ns: nat, j: nat)
    requires TimerList(s, l) && Member(s1, l, p, j) && s1.tcb.Keys == s.tcb.Keys
    requires forall x <- s.tcb :: x != p ==> Times(s1.tcb[x]) == Times(s.tcb[x])
    requires p in s1.tcb && s1.tcb[p].alarmsec == sec && s1.tcb[p].alarmns == ns
    ensures InPlace(s, l, p, sec, ns) <==> Position(s1.tcb, l, sec, ns) == j + 1 < |l|
  {
    var k := Position(s1.tcb, l, sec, ns);
    TimerMembers(s, l);
    forall i | 0 <= i < |l| && i != j
      ensures Later(s1.tcb[l[i]], sec, ns) == Later(s.tcb[l[i]], sec, ns)
    {
      assert Times(s1.tcb[l[i]]) == Times(s.tcb[l[i]]);
    }
    if k == j + 1 < |l| {
      assert InPlaceAt(s, l, p, sec, ns, j);
    }
    if InPlace(s, l, p, sec, ns) {
      var i :| InPlaceAt(s, l, p, sec, ns, i);
      assert i == j;
    }
  }

  lemma InPlaceOrdered(s: Sys, s1: Sys, l: seq<Pid>, p: Pid, sec: nat, ns: nat, j: nat)
    requires TimerList(s, l) && Member(s1, l, p, j) && s1.tcb.Keys == s.tcb.Keys
    requires forall x <- s.tcb :: x != p ==> Times(s1.tcb[x]) == Times(s.tcb[x])
    requires p in s1.tcb && s1.tcb[p].alarmsec == sec && s1.tcb[p].alarmns == ns
    requires Position(s1.tcb, l, sec, ns) == j + 1 < |l|
    ensures Ordered(s1.tcb, l)
  {
    TimerMembers(s, l);
    assert Later(s1.tcb[l[j + 1]], sec, ns);
    forall a, b | 0 <= a < b < |l|
      ensures !Later(s1.tcb[l[a]], s1.tcb[l[b]].alarmsec, s1.tcb[l[b]].alarmns)
    {
      assert !Later(s.tcb[l[a]], s.tcb[l[b]].alarmsec, s.tcb[l[b]].alarmns);
      if a != j { assert Times(s1.tcb[l[a]]) == Times(s.tcb[l[a]]); }
      if b != j { assert Times(s1.tcb[l[b]]) == Times(s.tcb[l[b]]); }
      if a == j && b > j + 1 {
        assert Times(s1.tcb[l[j + 1]]) == Times(s.tcb[l[j + 1]]);
        assert !Later(s.tcb[l[j + 1]], s.tcb[l[b]].alarmsec, s.tcb[l[b]].alarmns);
      }
    }
  }

  /** The timer interrupt takes exactly the head, the earliest task, off the list. */
  lemma ExpireDropsHead(s: Sys, l: seq<Pid>, clock: Clock)
    requires TimerList(s, l) && l != [] && l[0] in s.tcb && s.tcb[l[0]].priority < |s.hdActive|
    ensures TimerList(Expire(s, clock), l[1..])
  {
    var h := l[0];
    var s1, s' := Awake(s, h, clock.lo), Expire(s, clock);
    TimesAfterAwake(s, h, clock.lo);
    TimerFrame(s, s1, l);
    assert TimerNode(s1.tcb, l, 0) && Times(s1.tcb[h]) == Times(s.tcb[h]);
    forall i | 0 <= i < |l[1..]|
      ensures TimerNode(s'.tcb, l[1..], i)
    {
      assert TimerNode(s1.tcb, l, i + 1);
    }
    assert s'.tcb == SetAlarm(s1.tcb, h, 0);
    assert Ordered(s1.tcb, l[1..]);
    OrderedFrame(s1.tcb, s'.tcb, l[1..]);
  }
}
