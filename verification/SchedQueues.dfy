/** What every scheduler operation keeps: the priority queues and the blocked list are
    well linked, acyclic, disjoint, and hold tasks of the right priority and state. */
module SchedQueues {
  import opened SchedState

  /** The lists that the links spell out. */
  datatype Queues = Queues(active: seq<seq<Pid>>, blocked: seq<Pid>)

  ghost predicate Distinct(l: seq<Pid>) {
    forall i, j :: 0 <= i < j < |l| ==> l[i] != l[j]
  }

  ghost function At(l: seq<Pid>, i: int): Pid {
    if 0 <= i < |l| then l[i] else 0
  }

  /** `l` is exactly the doubly linked chain stored in the control blocks. */
  ghost predicate Linked(t: Tasks, l: seq<Pid>) {
    && Distinct(l)
    && forall i :: 0 <= i < |l| ==> Node(t, l, i)
  }

  ghost predicate Node(t: Tasks, l: seq<Pid>, i: nat)
    requires i < |l|
  {
    l[i] in t && t[l[i]].prev == At(l, i - 1) && t[l[i]].next == At(l, i + 1)
  }

  lemma LinkedMembers(t: Tasks, l: seq<Pid>)
    requires Linked(t, l)
    ensures forall x :: x in l ==> x in t
  {
    forall x | x in l
      ensures x in t
    {
      var i :| 0 <= i < |l| && l[i] == x;
      assert Node(t, l, i);
    }
  }

  ghost predicate ActiveQueue(s: Sys, l: seq<Pid>, pri: nat)
    requires pri < |s.hdActive| == |s.crActive|
  {
    && Linked(s.tcb, l)
    && s.hdActive[pri] == At(l, 0)
    && (s.crActive[pri] == 0 || s.crActive[pri] in l)
    && forall x :: x in l ==> x in s.tcb && s.tcb[x].priority == pri && s.tcb[x].state == Running
  }

  ghost predicate BlockedList(s: Sys, l: seq<Pid>) {
    && Linked(s.tcb, l)
    && s.hdBlocked == At(l, 0)
    && forall x :: x in l ==> x in s.tcb && s.tcb[x].state != Running
  }

  ghost predicate Typed(s: Sys) {
    && |s.hdActive| == |s.crActive| == PRI_COUNT
    && 0 !in s.tcb
    && forall p <- s.tcb :: s.tcb[p].pid == p && s.tcb[p].priority < PRI_COUNT
  }

  ghost predicate Inv(s: Sys, q: Queues) {
    && Typed(s)
    && |q.active| == PRI_COUNT
    && (forall i :: 0 <= i < PRI_COUNT ==> ActiveQueue(s, q.active[i], i))
    && BlockedList(s, q.blocked)
  }

  ghost predicate Queued(q: Queues, p: Pid)
    requires |q.active| == PRI_COUNT
  {
    p in q.blocked || exists i :: 0 <= i < PRI_COUNT && p in q.active[i]
  }

  ghost function Without(l: seq<Pid>, p: Pid): seq<Pid> {
    if l == [] then [] else if l[0] == p then l[1..] else [l[0]] + Without(l[1..], p)
  }

  // ----- one chain at a time

  lemma {:induction false} WithoutAt(l: seq<Pid>, k: nat)
    requires k < |l| && Distinct(l)
    ensures Without(l, l[k]) == l[..k] + l[k + 1..]
  {
    if k == 0 {
    } else {
      var r := l[1..];
      assert l[0] != l[k];
      assert Distinct(r);
      hide Distinct;
      WithoutAt(r, k - 1);
      assert r[k - 1] == l[k];
      assert [l[0]] + (r[..k - 1] + r[k..]) == l[..k] + l[k + 1..];
    }
  }

  lemma {:induction false} WithoutAbsent(l: seq<Pid>, p: Pid)
    requires p !in l
    ensures Without(l, p) == l
  {
    if l != [] { WithoutAbsent(l[1..], p); }
  }

  /** No link of a member differs. */
  ghost predicate SameLinks(t: Tasks, t': Tasks, l: seq<Pid>) {
    forall x :: x in l ==> x in t && x in t' && t'[x].prev == t[x].prev && t'[x].next == t[x].next
  }

  lemma LinkedFrame(t: Tasks, t': Tasks, l: seq<Pid>)
    requires Linked(t, l) && SameLinks(t, t', l)
    ensures Linked(t', l)
  {
    forall i | 0 <= i < |l|
      ensures Node(t', l, i)
    {
      assert Node(t, l, i) && l[i] in l;
    }
  }

  /** `p` in front of the chain: the old head points back to it, no other link differs. */
  ghost predicate PushedOn(t: Tasks, t': Tasks, l: seq<Pid>, p: Pid) {
    && p in t' && t'[p].prev == 0 && t'[p].next == At(l, 0)
    && forall x :: x in l ==> x in t && x in t' && t'[x].next == t[x].next
                              && t'[x].prev == if x == At(l, 0) then p else t[x].prev
  }

  lemma LinkedPush(t: Tasks, t': Tasks, l: seq<Pid>, p: Pid)
    requires Linked(t, l) && p !in l && PushedOn(t, t', l, p)
    ensures Linked(t', [p] + l)
  {
    var l' := [p] + l;
    forall i | 0 <= i < |l'|
      ensures Node(t', l', i)
    {
      if i > 0 {
        assert l'[i] == l[i - 1] && Node(t, l, i - 1) && l[i - 1] in l;
        assert l[i - 1] == l[0] <==> i == 1;
      }
    }
  }

  /** `t'` is `t` with `p` bypassed: its neighbours point past it, no other link differs. */
  ghost predicate Bypassed(t: Tasks, t': Tasks, p: Pid)
    requires p in t
  {
    && t'.Keys == t.Keys
    && forall x <- t :: x != p ==>
         && t'[x].next == (if x == t[p].prev then t[p].next else t[x].next)
         && t'[x].prev == (if x == t[p].next then t[p].prev else t[x].prev)
  }

  lemma BypassedNode(t: Tasks, t': Tasks, l: seq<Pid>, k: nat, i: nat)
    requires Linked(t, l) && k < |l| && i < |l| && i != k && 0 !in t
    requires l[k] in t && Bypassed(t, t', l[k])
    ensures l[i] in t'
    ensures t'[l[i]].next == if i == k - 1 then At(l, k + 1) else At(l, i + 1)
    ensures t'[l[i]].prev == if i == k + 1 then At(l, k - 1) else At(l, i - 1)
  {
    assert Node(t, l, i) && Node(t, l, k);
    assert l[i] == At(l, k - 1) <==> i == k - 1;
    assert l[i] == At(l, k + 1) <==> i == k + 1;
  }

  lemma WithoutDistinct(l: seq<Pid>, k: nat)
    requires Distinct(l) && k < |l|
    ensures Distinct(l[..k] + l[k + 1..])
  {
    var l' := l[..k] + l[k + 1..];
    forall i, j | 0 <= i < j < |l'|
      ensures l'[i] != l'[j]
    {
      var a, b := if i < k then i else i + 1, if j < k then j else j + 1;
      assert l'[i] == l[a] && l'[j] == l[b];
    }
  }

  lemma WithoutNode(t: Tasks, t': Tasks, l: seq<Pid>, k: nat, i: nat)
    requires Linked(t, l) && k < |l| && 0 !in t && l[k] in t && Bypassed(t, t', l[k]) && i < |l| - 1
    ensures Node(t', l[..k] + l[k + 1..], i)
  {
    var l', j := l[..k] + l[k + 1..], if i < k then i else i + 1;
    assert l'[i] == l[j];
    BypassedNode(t, t', l, k, j);
    hide Linked;
    hide Bypassed;
    assert At(l', i - 1) == if j == k + 1 then At(l, k - 1) else At(l, j - 1);
    assert At(l', i + 1) == if j == k - 1 then At(l, k + 1) else At(l, j + 1);
  }

  lemma BypassedOwn(t: Tasks, t': Tasks, l: seq<Pid>, p: Pid)
    requires p in t && Linked(t, l) && p in l && Bypassed(t, t', p) && 0 !in t
    ensures Linked(t', Without(l, p))
  {
    hide Bypassed;
    hide Node;
    var k :| 0 <= k < |l| && l[k] == p;
    WithoutAt(l, k);
    WithoutDistinct(l, k);
    var l' := l[..k] + l[k + 1..];
    forall i | 0 <= i < |l'|
      ensures Node(t', l', i)
    {
      WithoutNode(t, t', l, k, i);
    }
  }

  lemma WithoutHas(l: seq<Pid>, k: nat, x: Pid)
    requires Distinct(l) && k < |l|
    ensures x in l[..k] + l[k + 1..] <==> x in l && x != l[k]
  {
    var l' := l[..k] + l[k + 1..];
    if x in l' {
      var i :| 0 <= i < |l'| && l'[i] == x;
      assert x == l[if i < k then i else i + 1];
    }
    if x in l && x != l[k] {
      var i :| 0 <= i < |l| && l[i] == x;
      assert l'[if i < k then i else i - 1] == x;
    }
  }

  lemma WithoutMembers(t: Tasks, l: seq<Pid>, p: Pid)
    requires Linked(t, l) && p in l && p in t
    ensures forall x :: x in Without(l, p) <==> x in l && x != p
    ensures At(Without(l, p), 0) == if At(l, 0) == p then t[p].next else At(l, 0)
    ensures t[p].next == 0 || t[p].next in Without(l, p)
    ensures t[p].prev == 0 || t[p].prev in Without(l, p)
  {
    var k :| 0 <= k < |l| && l[k] == p;
    assert Node(t, l, k);
    WithoutAt(l, k);
    forall x
      ensures x in Without(l, p) <==> x in l && x != p
    {
      WithoutHas(l, k, x);
    }
    assert At(l, 0) == p <==> k == 0;
    assert k > 0 ==> l[k - 1] != p;
    assert k + 1 < |l| ==> l[k + 1] != p;
    hide Distinct;
    hide Node;
  }

  lemma BypassedOther(t: Tasks, t': Tasks, l: seq<Pid>, m: seq<Pid>, p: Pid)
    requires p in t && Linked(t, l) && Linked(t, m) && p in m && Bypassed(t, t', p) && 0 !in t
    requires forall x :: x in m ==> x !in l
    ensures SameLinks(t, t', l) && Linked(t', l)
  {
    WithoutMembers(t, m, p);
    LinkedMembers(t, l);
    LinkedFrame(t, t', l);
  }

  // ----- whole states

  /** Every pair of lists is disjoint: state and priority of a member say where it is. */
  lemma QueuesDisjoint(s: Sys, q: Queues)
    requires Inv(s, q)
    ensures forall i, j, p :: 0 <= i < j < PRI_COUNT && p in q.active[i] ==> p !in q.active[j]
    ensures forall i, p :: 0 <= i < PRI_COUNT && p in q.active[i] ==> p !in q.blocked
  {
    forall i, j, p | 0 <= i < j < PRI_COUNT && p in q.active[i]
      ensures p !in q.active[j]
    {
      assert ActiveQueue(s, q.active[i], i) && ActiveQueue(s, q.active[j], j);
      assert s.tcb[p].priority == i;
    }
    forall i, p | 0 <= i < PRI_COUNT && p in q.active[i]
      ensures p !in q.blocked
    {
      assert ActiveQueue(s, q.active[i], i);
      assert s.tcb[p].state == Running;
    }
  }

  lemma QueuedAt(s: Sys, q: Queues, p: Pid)
    requires Inv(s, q) && Queued(q, p)
    ensures p in s.tcb
    ensures s.tcb[p].state == Running ==> p in q.active[s.tcb[p].priority] && p !in q.blocked
    ensures s.tcb[p].state != Running ==> p in q.blocked && forall i :: 0 <= i < PRI_COUNT ==> p !in q.active[i]
  {
    forall i | 0 <= i < PRI_COUNT
      ensures p in q.active[i] ==> p in s.tcb && s.tcb[p].state == Running && s.tcb[p].priority == i
    {
      assert ActiveQueue(s, q.active[i], i);
    }
  }

  function Pushed(q: Queues, pri: nat, p: Pid): Queues
    requires pri < |q.active|
  {
    q.(active := q.active[pri := [p] + q.active[pri]])
  }

  /** A task in no list goes to the front of its priority queue. */
  lemma AddInv(s: Sys, q: Queues, p: Pid)
    requires Inv(s, q)
    requires p in s.tcb && s.tcb[p].state == Running && !Queued(q, p)
    ensures Inv(Add(s, p), Pushed(q, s.tcb[p].priority, p))
  {
    var pri := s.tcb[p].priority;
    var s', q' := Add(s, p), Pushed(q, pri, p);
    var h := s.hdActive[pri];
    assert ActiveQueue(s, q.active[pri], pri);
    QueuesDisjoint(s, q);
    assert h != 0 ==> h in q.active[pri];
    forall i | 0 <= i < PRI_COUNT
      ensures ActiveQueue(s', q'.active[i], i)
    {
      assert ActiveQueue(s, q.active[i], i);
      assert p !in q.active[i];
      if i == pri {
        LinkedPush(s.tcb, s'.tcb, q.active[i], p);
      } else {
        assert h !in q.active[i];
        LinkedFrame(s.tcb, s'.tcb, q.active[i]);
      }
    }
    LinkedFrame(s.tcb, s'.tcb, q.blocked);
  }

  ghost function Dropped(q: Queues, pri: nat, p: Pid): Queues
    requires pri < |q.active|
  {
    q.(active := q.active[pri := Without(q.active[pri], p)])
  }

  /** Only links differ, and only outside `p`. */
  ghost predicate OnlyLinks(t: Tasks, t': Tasks, p: Pid) {
    && t'.Keys == t.Keys
    && forall x <- t :: x != p ==> t'[x] == t[x].(next := t'[x].next, prev := t'[x].prev)
  }

  lemma UnlinkBypasses(t: Tasks, t1: Tasks, p: Pid, l: seq<Pid>)
    requires p in t && Linked(t, l) && p in l && 0 !in t
    requires t1.Keys == t.Keys && forall x <- t :: x != p ==> t1[x] == t[x]
    ensures var t' := Unlink(t1, t[p].prev, t[p].next);
            Bypassed(t, t', p) && OnlyLinks(t, t', p) && t'[p] == t1[p]
  {
    WithoutMembers(t, l, p);
    hide Linked;
    hide Without;
    var prev, next := t[p].prev, t[p].next;
    forall x <- t
      ensures x in Unlink(t1, prev, next)
      ensures Unlink(t1, prev, next)[x] == t1[x].(next := if x == prev then next else t1[x].next,
                                                  prev := if x == next then prev else t1[x].prev)
    {
      UnlinkAt(t1, prev, next, x);
    }
    hide Unlink;
  }

  lemma UnlinkAt(t: Tasks, prev: Pid, next: Pid, x: Pid)
    requires x in t
    ensures Unlink(t, prev, next).Keys == t.Keys
    ensures Unlink(t, prev, next)[x] == t[x].(next := if x == prev then next else t[x].next, prev := if x == next then prev else t[x].prev)
  {
  }

  /** Removing an active task takes it out of its queue; a cursor on it moves to its successor. */
  lemma RemoveInv(s: Sys, q: Queues, p: Pid)
    requires Inv(s, q)
    requires p in s.tcb && p in q.active[s.tcb[p].priority]
    ensures Inv(Remove(s, p), Dropped(q, s.tcb[p].priority, p))
  {
    var c := s.tcb[p];
    var s', q' := Remove(s, p), Dropped(q, c.priority, p);
    var l := q.active[c.priority];
    QueuesDisjoint(s, q);
    assert ActiveQueue(s, l, c.priority);
    UnlinkBypasses(s.tcb, s.tcb[p := c.(prev := 0, next := 0)], p, l);
    WithoutMembers(s.tcb, l, p);
    BypassedOwn(s.tcb, s'.tcb, l, p);
    forall i | 0 <= i < PRI_COUNT
      ensures ActiveQueue(s', q'.active[i], i)
    {
      assert ActiveQueue(s, q.active[i], i);
      if i != c.priority {
        BypassedOther(s.tcb, s'.tcb, q.active[i], l, p);
      }
    }
    BypassedOther(s.tcb, s'.tcb, q.blocked, l, p);
  }

  ghost function BlockedQueues(q: Queues, pri: nat, p: Pid): Queues
    requires pri < |q.active|
  {
    Queues(q.active[pri := Without(q.active[pri], p)], [p] + Without(q.blocked, p))
  }

  /** With `p` bypassed in its own list `m`, every list without `p` is linked. */
  lemma BlockRest(s: Sys, q: Queues, p: Pid, t: Tasks, m: seq<Pid>)
    requires Inv(s, q) && p in s.tcb && p in m
    requires m == q.blocked || m == q.active[s.tcb[p].priority]
    requires m == if s.tcb[p].state == Running then q.active[s.tcb[p].priority] else q.blocked
    requires Bypassed(s.tcb, t, p)
    ensures Linked(t, Without(q.blocked, p))
    ensures forall i :: 0 <= i < PRI_COUNT ==>
              Linked(t, if i == s.tcb[p].priority then Without(q.active[i], p) else q.active[i])
  {
    QueuesDisjoint(s, q);
    var pri := s.tcb[p].priority;
    assert ActiveQueue(s, q.active[pri], pri);
    BypassedOwn(s.tcb, t, m, p);
    if m != q.blocked {
      WithoutAbsent(q.blocked, p);
      BypassedOther(s.tcb, t, q.blocked, m, p);
    }
    forall i | 0 <= i < PRI_COUNT
      ensures Linked(t, if i == pri then Without(q.active[i], p) else q.active[i])
    {
      assert ActiveQueue(s, q.active[i], i);
      if s.tcb[p].state != Running || i != pri {
        WithoutAbsent(q.active[i], p);
        BypassedOther(s.tcb, t, q.active[i], m, p);
      }
    }
  }

  /** The control blocks after the removal half of `Block`. */
  ghost function BlockRemoved(t: Tasks, p: Pid, now: nat): Tasks
    requires p in t
  {
    Unlink(t[p := t[p].(blktime := now, state := Blocked, prev := 0, next := 0)], t[p].prev, t[p].next)
  }

  lemma BlockRemovedLinked(s: Sys, q: Queues, p: Pid, now: nat)
    requires Inv(s, q) && Queued(q, p) && p in s.tcb
    ensures var t := BlockRemoved(s.tcb, p, now);
            && OnlyLinks(s.tcb, t, p)
            && t[p] == s.tcb[p].(blktime := now, state := Blocked, prev := 0, next := 0)
            && Linked(t, Without(q.blocked, p))
            && forall i :: 0 <= i < PRI_COUNT ==>
                 Linked(t, BlockedQueues(q, s.tcb[p].priority, p).active[i])
  {
    var c := s.tcb[p];
    QueuedAt(s, q, p);
    assert ActiveQueue(s, q.active[c.priority], c.priority);
    var m := if c.state == Running then q.active[c.priority] else q.blocked;
    UnlinkBypasses(s.tcb, s.tcb[p := c.(blktime := now, state := Blocked, prev := 0, next := 0)], p, m);
    BlockRest(s, q, p, BlockRemoved(s.tcb, p, now), m);
  }

  lemma BlockMembers(s: Sys, q: Queues, p: Pid)
    requires Inv(s, q) && Queued(q, p) && p != s.hdBlocked && p in s.tcb
    ensures var b := Without(q.blocked, p);
            (forall x :: x in b <==> x in q.blocked && x != p) && At(b, 0) == s.hdBlocked
    ensures var a := Without(q.active[s.tcb[p].priority], p);
            && (forall x :: x in a <==> x in q.active[s.tcb[p].priority] && x != p)
            && var c := s.tcb[p]; var h := s.hdActive[c.priority]; var r := s.crActive[c.priority];
               At(a, 0) == (if h == p then c.next else h) && (r == p ==> c.next == 0 || c.next in a)
  {
    QueuedAt(s, q, p);
    var pri := s.tcb[p].priority;
    assert ActiveQueue(s, q.active[pri], pri);
    if s.tcb[p].state == Running {
      WithoutMembers(s.tcb, q.active[pri], p);
      WithoutAbsent(q.blocked, p);
    } else {
      WithoutMembers(s.tcb, q.blocked, p);
      WithoutAbsent(q.active[pri], p);
    }
  }

  lemma BlockShape(s: Sys, p: Pid, idle: nat, now: nat)
    requires p in s.tcb && s.tcb[p].priority < |s.hdActive| == |s.crActive| && s.tcb[p].memroot != idle
    ensures var c, t := s.tcb[p], BlockRemoved(s.tcb, p, now);
            Block(s, p, idle, now) == s.(
              tcb := SetPrev(t, s.hdBlocked, p)[p := SetPrev(t, s.hdBlocked, p)[p].(next := s.hdBlocked, prev := 0, state := Blocked)],
              hdBlocked := p,
              hdActive := if s.hdActive[c.priority] == p then s.hdActive[c.priority := c.next] else s.hdActive,
              crActive := if s.crActive[c.priority] == p then s.crActive[c.priority := c.next] else s.crActive)
  {
    var c := s.tcb[p];
    assert s.tcb[p := c.(blktime := now, state := Blocked)][p := c.(blktime := now, state := Blocked, prev := 0, next := 0)]
        == s.tcb[p := c.(blktime := now, state := Blocked, prev := 0, next := 0)];
  }

  /** Queue `l`, which became `a` by the removal, is not touched by the push on the blocked list. */
  lemma BlockActive(s: Sys, s': Sys, p: Pid, t: Tasks, l: seq<Pid>, a: seq<Pid>, i: nat)
    requires |s.hdActive| == |s.crActive| == |s'.hdActive| == |s'.crActive| && i < |s.hdActive|
    requires ActiveQueue(s, l, i) && p in s.tcb && Linked(t, a)
    requires OnlyLinks(s.tcb, t, p) && s.hdBlocked !in a && p in t
    requires p in s'.tcb && s'.tcb == SetPrev(t, s.hdBlocked, p)[p := s'.tcb[p]]
    requires forall x :: x in a <==> x in l && x != p
    requires s'.hdActive[i] == At(a, 0)
    requires s'.crActive[i] == 0 || s'.crActive[i] in a
    ensures ActiveQueue(s', a, i)
  {
    LinkedMembers(t, a);
    LinkedFrame(t, s'.tcb, a);
  }

  lemma BlockBlocked(s: Sys, s': Sys, p: Pid, t: Tasks, l: seq<Pid>, b: seq<Pid>)
    requires BlockedList(s, l) && Linked(t, b)
    requires p in s.tcb && OnlyLinks(s.tcb, t, p) && s.hdBlocked == At(b, 0) && p !in b
    requires p in s'.tcb && s'.tcb == SetPrev(t, s.hdBlocked, p)[p := s'.tcb[p]] && s'.hdBlocked == p
    requires s'.tcb[p].next == s.hdBlocked && s'.tcb[p].prev == 0 && s'.tcb[p].state == Blocked
    requires forall x :: x in b ==> x in l
    ensures BlockedList(s', [p] + b)
  {
    LinkedMembers(t, b);
    LinkedPush(t, s'.tcb, b, p);
  }

  lemma BlockLists(s: Sys, q: Queues, p: Pid, idle: nat, now: nat)
    requires Inv(s, q) && Queued(q, p) && p != s.hdBlocked
    requires p in s.tcb && s.tcb[p].memroot != idle
    ensures var s', q' := Block(s, p, idle, now), BlockedQueues(q, s.tcb[p].priority, p);
            && |s'.hdActive| == |s'.crActive| == PRI_COUNT
            && BlockedList(s', q'.blocked)
            && forall i :: 0 <= i < PRI_COUNT ==> ActiveQueue(s', q'.active[i], i)
  {
    var s', q' := Block(s, p, idle, now), BlockedQueues(q, s.tcb[p].priority, p);
    var t := BlockRemoved(s.tcb, p, now);
    BlockShape(s, p, idle, now);
    BlockRemovedLinked(s, q, p, now);
    BlockMembers(s, q, p);
    BlockBlocked(s, s', p, t, q.blocked, Without(q.blocked, p));
    forall i | 0 <= i < PRI_COUNT
      ensures ActiveQueue(s', q'.active[i], i)
    {
      assert ActiveQueue(s, q.active[i], i);
      assert s.hdBlocked !in q.active[i];
      if i != s.tcb[p].priority { assert p !in q.active[i]; }
      BlockActive(s, s', p, t, q.active[i], q'.active[i], i);
    }
  }

  /** Blocking a queued task that is not the head of the blocked list: the task leaves the list
      it was in and becomes the new head of the blocked list; every other task keeps its place. */
  lemma BlockInv(s: Sys, q: Queues, p: Pid, idle: nat, now: nat)
    requires Inv(s, q) && Queued(q, p) && p != s.hdBlocked
    requires p in s.tcb && s.tcb[p].memroot != idle
    ensures Inv(Block(s, p, idle, now), BlockedQueues(q, s.tcb[p].priority, p))
  {
    hide Block;
    hide ActiveQueue;
    hide BlockedList;
    BlockTyped(s, q, p, idle, now);
    BlockLists(s, q, p, idle, now);
  }

  lemma BlockTyped(s: Sys, q: Queues, p: Pid, idle: nat, now: nat)
    requires Inv(s, q) && Queued(q, p) && p in s.tcb && s.tcb[p].memroot != idle
    ensures Typed(Block(s, p, idle, now))
  {
    BlockShape(s, p, idle, now);
    BlockRemovedLinked(s, q, p, now);
    hide Block;
    hide Linked;
    hide ActiveQueue;
    hide BlockedList;
    hide BlockRemoved;
    hide Without;
    var t, s' := BlockRemoved(s.tcb, p, now), Block(s, p, idle, now);
    SetPrevTyped(t, s.hdBlocked, p);
    hide SetPrev;
    forall x <- s'.tcb
      ensures x in s.tcb && s'.tcb[x].pid == s.tcb[x].pid && s'.tcb[x].priority == s.tcb[x].priority
    {
    }
  }

  lemma SetPrevTyped(t: Tasks, h: Pid, p: Pid)
    ensures SetPrev(t, h, p).Keys == t.Keys
    ensures forall x <- t :: SetPrev(t, h, p)[x].pid == t[x].pid && SetPrev(t, h, p)[x].priority == t[x].priority
  {
  }

  lemma HeadNext(t: Tasks, l: seq<Pid>)
    requires Linked(t, l) && l != [] && l[0] != 0
    ensures l[0] in t && t[l[0]].next != l[0]
  {
    assert Node(t, l, 0);
  }

  /** Blocking the head of the blocked list makes it its own successor, and then the links spell out no lists at all. */
  lemma SelfLoop(s: Sys, q: Queues, p: Pid, idle: nat, now: nat)
    requires Inv(s, q) && p in s.tcb && p == s.hdBlocked && s.tcb[p].memroot != idle
    ensures var s' := Block(s, p, idle, now); p in s'.tcb && s'.hdBlocked == p == s'.tcb[p].next
    ensures forall q' :: !Inv(Block(s, p, idle, now), q')
  {
    BlockShape(s, p, idle, now);
    var s' := Block(s, p, idle, now);
    assert s'.hdBlocked == p == s'.tcb[p].next;
    forall q'
      ensures !Inv(s', q')
    {
      if BlockedList(s', q'.blocked) { HeadNext(s'.tcb, q'.blocked); }
    }
  }

  /** Blocking a queued task leaves well-formed lists exactly when the task is the idle task or
      is not the head of the blocked list; the head would end up linked to itself. */
  lemma BlockInvIff(s: Sys, q: Queues, p: Pid, idle: nat, now: nat)
    requires Inv(s, q) && Queued(q, p) && p in s.tcb
    ensures (exists q' :: Inv(Block(s, p, idle, now), q')) <==> s.tcb[p].memroot == idle || p != s.hdBlocked
  {
    var s' := Block(s, p, idle, now);
    if s.tcb[p].memroot == idle {
      assert Inv(s', q);
    } else if p != s.hdBlocked {
      BlockInv(s, q, p, idle, now);
    } else {
      SelfLoop(s, q, p, idle, now);
    }
  }

  ghost function AwakeQueues(q: Queues, pri: nat, p: Pid): Queues
    requires pri < |q.active|
  {
    Queues(q.active[pri := [p] + q.active[pri]], Without(q.blocked, p))
  }

  /** The control blocks after `Awake`, with the two link changes the other way round. */
  ghost function AwakeTasks(t: Tasks, p: Pid, h: Pid, now: nat): Tasks
    requires p in t
  {
    var c := t[p];
    Unlink(t[p := c.(state := Running, prev := 0, next := h, blktime := 0,
                     blkcnt := Billed(c, now))], c.prev, c.next)
  }

  /** `Awake` links the task into its queue first and bypasses it in the blocked list afterwards,
      with the links saved before; the outcome is as if it had been done the other way round. */
  lemma AwakeShape(s: Sys, p: Pid, now: nat)
    requires p in s.tcb && 0 !in s.tcb && s.tcb[p].priority < |s.hdActive| && s.tcb[p].state != Running
    requires var c, h := s.tcb[p], s.hdActive[s.tcb[p].priority];
             h != p && c.prev != p && c.next != p && (h != 0 ==> h != c.prev && h != c.next)
    ensures var c, h := s.tcb[p], s.hdActive[s.tcb[p].priority];
            Awake(s, p, now) == s.(
              tcb := SetPrev(AwakeTasks(s.tcb, p, h, now), h, p),
              hdActive := s.hdActive[c.priority := p],
              hdBlocked := if s.hdBlocked == p then c.next else s.hdBlocked,
              isrNext := c.memroot)
  {
    var t, c, h := s.tcb, s.tcb[p], s.hdActive[s.tcb[p].priority];
    var c3 := c.(state := Blocked, prev := 0, next := h, blktime := 0, blkcnt := Billed(c, now));
    var c4 := c3.(state := Running);
    var u := SetPrev(t[p := c3], h, p);
    assert Awake(s, p, now).tcb == Unlink(u, c.prev, c.next)[p := Unlink(u, c.prev, c.next)[p].(state := Running)] by {
      hide Unlink;
      var t1: Tasks := t[p := c.(state := Blocked)];
      var t2: Tasks := t1[p := c.(state := Blocked, blktime := 0, blkcnt := Billed(c, now))];
      assert t2[p := c3] == t[p := c3];
    }
    SetPrevOther(t, h, p, p, c3);
    SetPrevOther(t, h, p, p, c4);
    UnlinkOther(SetPrev(t, h, p), c.prev, c.next, p, c3);
    UnlinkOther(SetPrev(t, h, p), c.prev, c.next, p, c4);
    UnlinkOther(t, c.prev, c.next, p, c4);
    UnlinkSetPrev(t[p := c4], c.prev, c.next, h, p);
    hide Unlink;
    hide SetPrev;
  }

  lemma SetPrevOther(t: Tasks, x: Pid, v: Pid, p: Pid, c: Tcb)
    requires x != p
    ensures SetPrev(t[p := c], x, v) == SetPrev(t, x, v)[p := c]
  {
  }

  lemma UnlinkOther(t: Tasks, prev: Pid, next: Pid, p: Pid, c: Tcb)
    requires prev != p && next != p
    ensures Unlink(t[p := c], prev, next) == Unlink(t, prev, next)[p := c]
  {
    assert SetNext(t[p := c], prev, next) == SetNext(t, prev, next)[p := c];
    SetPrevOther(SetNext(t, prev, next), next, prev, p, c);
    hide SetNext;
    hide SetPrev;
  }

  lemma UnlinkSetPrev(t: Tasks, prev: Pid, next: Pid, h: Pid, p: Pid)
    requires h in t ==> h != prev && h != next
    ensures Unlink(SetPrev(t, h, p), prev, next) == SetPrev(Unlink(t, prev, next), h, p)
  {
    assert SetNext(SetPrev(t, h, p), prev, next) == SetPrev(SetNext(t, prev, next), h, p);
    var u := SetNext(t, prev, next);
    assert SetPrev(SetPrev(u, h, p), next, prev) == SetPrev(SetPrev(u, next, prev), h, p);
  }

  lemma AwakeActive(s: Sys, s': Sys, p: Pid, t: Tasks, l: seq<Pid>, i: nat)
    requires |s.hdActive| == |s.crActive| == |s'.hdActive| == |s'.crActive| && i < |s.hdActive|
    requires p in s.tcb && ActiveQueue(s, l, i) && Linked(t, l) && OnlyLinks(s.tcb, t, p) && p !in l
    requires s'.crActive == s.crActive
    requires t[p].priority == i && t[p].state == Running && t[p].prev == 0 && t[p].next == s.hdActive[i]
    requires s'.tcb == SetPrev(t, s.hdActive[i], p) && s'.hdActive[i] == p && s.hdActive[i] != p
    ensures ActiveQueue(s', [p] + l, i)
  {
    LinkedMembers(t, l);
    LinkedPush(t, s'.tcb, l, p);
  }

  lemma AwakeOther(s: Sys, s': Sys, p: Pid, t: Tasks, h: Pid, l: seq<Pid>)
    requires p in s.tcb && Linked(t, l) && OnlyLinks(s.tcb, t, p) && p !in l && h !in l
    requires s'.tcb == SetPrev(t, h, p)
    ensures Linked(s'.tcb, l)
    ensures forall x :: x in l ==> x in s.tcb && x in s'.tcb && s'.tcb[x].priority == s.tcb[x].priority
                                   && s'.tcb[x].state == s.tcb[x].state
  {
    LinkedMembers(t, l);
    LinkedFrame(t, s'.tcb, l);
  }

  lemma AwakeRest(s: Sys, q: Queues, p: Pid, now: nat)
    requires Inv(s, q) && p in q.blocked && p in s.tcb
    ensures var c, h := s.tcb[p], s.hdActive[s.tcb[p].priority];
            var t := AwakeTasks(s.tcb, p, h, now);
            && OnlyLinks(s.tcb, t, p)
            && t[p].pid == c.pid && t[p].priority == c.priority && t[p].state == Running
            && t[p].prev == 0 && t[p].next == h
            && Linked(t, Without(q.blocked, p))
            && forall i :: 0 <= i < PRI_COUNT ==> Linked(t, if i == c.priority then Without(q.active[i], p) else q.active[i])
  {
    var c, h := s.tcb[p], s.hdActive[s.tcb[p].priority];
    var t1 := s.tcb[p := c.(state := Running, prev := 0, next := h, blktime := 0, blkcnt := Billed(c, now))];
    var t := AwakeTasks(s.tcb, p, h, now);
    assert t == Unlink(t1, c.prev, c.next);
    UnlinkBypasses(s.tcb, t1, p, q.blocked);
    QueuedAt(s, q, p);
    BlockRest(s, q, p, t, q.blocked);
  }

  lemma AwakeHead(s: Sys, q: Queues, p: Pid)
    requires Inv(s, q) && p in q.blocked && p in s.tcb
    ensures var c, h := s.tcb[p], s.hdActive[s.tcb[p].priority];
            && c.state != Running && h !in q.blocked
            && h != p && c.prev != p && c.next != p && (h != 0 ==> h != c.prev && h != c.next)
  {
    var c := s.tcb[p];
    assert ActiveQueue(s, q.active[c.priority], c.priority);
    WithoutMembers(s.tcb, q.blocked, p);
  }

  /** Waking a blocked or hibernated task moves it from the blocked list to the front of its queue. */
  lemma AwakeInv(s: Sys, q: Queues, p: Pid, now: nat)
    requires Inv(s, q) && p in q.blocked && p in s.tcb
    ensures Inv(Awake(s, p, now), AwakeQueues(q, s.tcb[p].priority, p))
  {
    hide Awake;
    hide Linked;
    hide Without;
    hide AwakeTasks;
    var s', h := Awake(s, p, now), s.hdActive[s.tcb[p].priority];
    var t := AwakeTasks(s.tcb, p, h, now);
    AwakeRest(s, q, p, now);
    AwakeHead(s, q, p);
    AwakeShape(s, p, now);
    AwakeLists(s, q, p, s', t);
    AwakeBlocked(s, q, p, s', t);
    AwakeTyped(s, p, s', t, h);
    hide ActiveQueue;
    hide BlockedList;
    hide Typed;
  }

  lemma AwakeTyped(s: Sys, p: Pid, s': Sys, t: Tasks, h: Pid)
    requires Typed(s) && p in s.tcb && OnlyLinks(s.tcb, t, p) && t[p].pid == p && t[p].priority == s.tcb[p].priority
    requires s'.tcb == SetPrev(t, h, p) && |s'.hdActive| == |s.hdActive| && s'.crActive == s.crActive
    ensures Typed(s')
  {
  }

  lemma AwakeBlocked(s: Sys, q: Queues, p: Pid, s': Sys, t: Tasks)
    requires Inv(s, q) && p in q.blocked && p in s.tcb && OnlyLinks(s.tcb, t, p) && Linked(t, Without(q.blocked, p))
    requires s'.tcb == SetPrev(t, s.hdActive[s.tcb[p].priority], p) && s.hdActive[s.tcb[p].priority] !in q.blocked
    requires s'.hdBlocked == if s.hdBlocked == p then s.tcb[p].next else s.hdBlocked
    ensures BlockedList(s', Without(q.blocked, p))
  {
    WithoutMembers(s.tcb, q.blocked, p);
    AwakeOther(s, s', p, t, s.hdActive[s.tcb[p].priority], Without(q.blocked, p));
    hide Linked;
    hide Without;
    hide ActiveQueue;
  }

  lemma AwakeLists(s: Sys, q: Queues, p: Pid, s': Sys, t: Tasks)
    requires Inv(s, q) && p in q.blocked && p in s.tcb && OnlyLinks(s.tcb, t, p)
    requires forall i :: 0 <= i < PRI_COUNT ==>
               Linked(t, if i == s.tcb[p].priority then Without(q.active[i], p) else q.active[i])
    requires t[p].priority == s.tcb[p].priority && t[p].state == Running && t[p].prev == 0
    requires t[p].next == s.hdActive[s.tcb[p].priority]
    requires s'.tcb == SetPrev(t, s.hdActive[s.tcb[p].priority], p)
    requires s'.hdActive == s.hdActive[s.tcb[p].priority := p] && s'.crActive == s.crActive
    ensures forall i :: 0 <= i < PRI_COUNT ==>
              ActiveQueue(s', AwakeQueues(q, s.tcb[p].priority, p).active[i], i)
  {
    var pri := s.tcb[p].priority;
    var h := s.hdActive[pri];
    QueuedAt(s, q, p);
    QueuesDisjoint(s, q);
    assert ActiveQueue(s, q.active[pri], pri);
    assert h == 0 || h in q.active[pri];
    WithoutAbsent(q.active[pri], p);
    forall i | 0 <= i < PRI_COUNT
      ensures ActiveQueue(s', AwakeQueues(q, pri, p).active[i], i)
    {
      assert ActiveQueue(s, q.active[i], i);
      if i == pri {
        AwakeActive(s, s', p, t, q.active[i], i);
      } else {
        AwakeOther(s, s', p, t, h, q.active[i]);
      }
    }
  }
}
