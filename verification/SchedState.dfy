/** The scheduler's data: task control blocks, the per-CPU control block, and the
    scheduler operations with direct access to the control block of any task.
    A task is named by its pid, the number of the page that holds its control block;
    pid 0 means "none". */
module SchedState {

  type Pid = nat

  const PRI_IDLE := 7
  const PRI_COUNT := 8
  const TWO64 := 0x1_0000_0000_0000_0000

  datatype TaskState = Hybernated | Blocked | Running

  datatype Tcb = Tcb(
    pid: Pid, priority: nat, state: TaskState, memroot: nat,
    next: Pid, prev: Pid,
    alarm: Pid, alarmsec: nat, alarmns: nat,
    blktime: nat, blkcnt: nat)

  type Tasks = map<Pid, Tcb>

  /** `ccb` queue heads and cursors, with the `isr_next` variable. */
  datatype Sys = Sys(
    tcb: Tasks,
    hdTimerq: Pid, hdBlocked: Pid,
    hdActive: seq<Pid>, crActive: seq<Pid>,
    isrNext: nat)

  // ----- single field writes; a write through pid 0 is never made and changes nothing

  function SetNext(t: Tasks, p: Pid, v: Pid): Tasks {
    if p in t then t[p := t[p].(next := v)] else t
  }

  function SetPrev(t: Tasks, p: Pid, v: Pid): Tasks {
    if p in t then t[p := t[p].(prev := v)] else t
  }

  // ----- the operations

  function Add(s: Sys, p: Pid): Sys
    requires p in s.tcb && s.tcb[p].priority < |s.hdActive|
  {
    var pri := s.tcb[p].priority;
    var h := s.hdActive[pri];
    s.(tcb := SetPrev(s.tcb[p := s.tcb[p].(prev := 0, next := h)], h, p),
       hdActive := s.hdActive[pri := p])
  }

  /** Takes `p` out of the chain its own links describe. */
  function Unlink(t: Tasks, prev: Pid, next: Pid): Tasks {
    SetPrev(SetNext(t, prev, next), next, prev)
  }

  function Remove(s: Sys, p: Pid): Sys
    requires p in s.tcb && s.tcb[p].priority < |s.hdActive| == |s.crActive|
  {
    var c := s.tcb[p];
    s.(tcb := Unlink(s.tcb[p := c.(prev := 0, next := 0)], c.prev, c.next),
       hdActive := if s.hdActive[c.priority] == p then s.hdActive[c.priority := c.next] else s.hdActive,
       crActive := if s.crActive[c.priority] == p then s.crActive[c.priority := c.next] else s.crActive)
  }

  function Block(s: Sys, p: Pid, idle: nat, now: nat): Sys
    requires p in s.tcb && s.tcb[p].priority < |s.hdActive| == |s.crActive|
  {
    if s.tcb[p].memroot == idle then s
    else
      var s1 := Remove(s.(tcb := s.tcb[p := s.tcb[p].(blktime := now, state := Blocked)]), p);
      var t1 := SetPrev(s1.tcb, s1.hdBlocked, p);
      s1.(tcb := t1[p := t1[p].(next := s1.hdBlocked, prev := 0, state := Blocked)], hdBlocked := p)
  }

  /** Ticks spent blocked, a 64-bit counter. */
  function Billed(c: Tcb, now: nat): nat {
    (c.blkcnt + now - c.blktime) % TWO64
  }

  /** From the blocked list to the active queue, with the links the task had when it was blocked. */
  function Activated(s: Sys, p: Pid, now: nat): (r: Sys)
    requires p in s.tcb && s.tcb[p].priority < |s.hdActive|
    ensures p in r.tcb
  {
    var c := s.tcb[p];
    var s1 := Add(s.(tcb := s.tcb[p := c.(blkcnt := Billed(c, now), blktime := 0)]), p);
    s1.(tcb := Unlink(s1.tcb, c.prev, c.next),
        hdBlocked := if s.hdBlocked == p then c.next else s.hdBlocked)
  }

  function Awake(s: Sys, p: Pid, now: nat): Sys
    requires p in s.tcb && s.tcb[p].priority < |s.hdActive|
  {
    var c := s.tcb[p];
    if c.state == Running then s.(isrNext := c.memroot)
    else
      var s1 := Activated(s.(tcb := s.tcb[p := c.(state := Blocked)]), p, now);
      s1.(tcb := s1.tcb[p := s1.tcb[p].(state := Running)], isrNext := c.memroot)
  }

  // ----- choosing the next task

  /** Cursors after a pass over the priority queues and the queue it stopped at, `PRI_IDLE` if none. */
  datatype Scanned = Scanned(cr: seq<Pid>, at: nat)

  function Scan(hd: seq<Pid>, cr: seq<Pid>, i: nat): (r: Scanned)
    requires |hd| == |cr| == PRI_COUNT && i <= PRI_IDLE
    ensures |r.cr| == PRI_COUNT && i <= r.at <= PRI_IDLE
    decreases PRI_IDLE - i
  {
    if i == PRI_IDLE then Scanned(cr, i)
    else if hd[i] == 0 then Scan(hd, cr, i + 1)
    else if cr[i] == 0 then Scan(hd, cr[i := hd[i]], i + 1)
    else Scanned(cr, i)
  }

  predicate AnyReady(hd: seq<Pid>)
    requires |hd| == PRI_COUNT
  {
    exists i :: 0 <= i < PRI_IDLE && hd[i] != 0
  }

  /** A pass, a second one if all cursors turned around, the idle queue if there is nothing else. */
  function Choose(hd: seq<Pid>, cr: seq<Pid>): (r: Scanned)
    requires |hd| == |cr| == PRI_COUNT
    ensures |r.cr| == PRI_COUNT && r.at <= PRI_IDLE
  {
    var a := Scan(hd, cr, 0);
    var b := if a.at == PRI_IDLE && AnyReady(hd) then Scan(hd, a.cr, 0) else a;
    if b.at == PRI_IDLE && b.cr[PRI_IDLE] == 0 then Scanned(b.cr[PRI_IDLE := hd[PRI_IDLE]], PRI_IDLE) else b
  }

  /** The task to run, 0 for the built-in idle task. */
  function Chosen(s: Sys): Pid
    requires |s.hdActive| == |s.crActive| == PRI_COUNT
  {
    var c := Choose(s.hdActive, s.crActive);
    if s.hdActive[c.at] == 0 then 0 else c.cr[c.at]
  }

  function Pick(s: Sys, current: Pid, idle: nat): (r: Sys)
    requires |s.hdActive| == |s.crActive| == PRI_COUNT
    ensures r.hdActive == s.hdActive && |r.crActive| == PRI_COUNT
  {
    var c := Choose(s.hdActive, s.crActive);
    var p := Chosen(s);
    if p !in s.tcb then s.(isrNext := idle)
    else s.(crActive := c.cr[c.at := s.tcb[p].next],
            isrNext := if current != p then s.tcb[p].memroot else s.isrNext)
  }
}
