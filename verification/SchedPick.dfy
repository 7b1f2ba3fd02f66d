/** Picking is counting down: the tasks left in each turn of the queues are the digits of a
    mixed-radix number, which gives the exact bound on how long a ready task waits. */
module SchedPick {
  import opened SchedState
  import opened SchedQueues

  // ----- mixed-radix numbers, least significant digit first, digit i in 0..n[i]

  function Radix(n: seq<nat>): (r: nat)
    ensures r >= 1
  {
    if n == [] then 1 else (n[0] + 1) * Radix(n[1..])
  }

  function Value(n: seq<nat>, d: seq<nat>): nat
    requires |n| == |d|
  {
    if n == [] then 0 else d[0] + (n[0] + 1) * Value(n[1..], d[1..])
  }

  /** Digit `c` at place `i`: `c` times the product of the bases below. */
  function Placed(n: seq<nat>, i: nat, c: nat): nat
    requires i <= |n|
  {
    if i == 0 then c else (n[0] + 1) * Placed(n[1..], i - 1, c)
  }

  ghost predicate IsDigits(n: seq<nat>, d: seq<nat>) {
    |d| == |n| && forall i :: 0 <= i < |n| ==> d[i] <= n[i]
  }

  /** `e` is `d` minus one: a borrow through the zero digits below `k`. */
  ghost predicate Borrow(n: seq<nat>, d: seq<nat>, e: seq<nat>, k: nat) {
    && |n| == |d| == |e| && k < |n|
    && (forall j :: 0 <= j < k ==> d[j] == 0 && e[j] == n[j])
    && d[k] == e[k] + 1
    && (forall j :: k < j < |n| ==> d[j] == e[j])
  }

  lemma MulSucc(m: nat, v: nat)
    ensures m * (v + 1) == m * v + m
  {
  }

  lemma {:induction false} BorrowValue(n: seq<nat>, d: seq<nat>, e: seq<nat>, k: nat)
    requires Borrow(n, d, e, k)
    ensures Value(n, d) == Value(n, e) + 1
  {
    if k == 0 {
      assert d[1..] == e[1..];
    } else {
      BorrowValue(n[1..], d[1..], e[1..], k - 1);
      MulSucc(n[0] + 1, Value(n[1..], e[1..]));
    }
  }

  lemma {:induction false} ValueFull(n: seq<nat>)
    ensures Value(n, n) == Radix(n) - 1
  {
    if n != [] {
      ValueFull(n[1..]);
      MulSucc(n[0] + 1, Radix(n[1..]) - 1);
    }
  }

  lemma {:induction false} MulStep(m: nat, x: nat, y: nat)
    ensures x < y ==> m * x + m <= m * y
  {
    if x + 1 < y {
      MulStep(m, x, y - 1);
    }
  }

  lemma {:induction false} ValueBound(n: seq<nat>, d: seq<nat>)
    requires IsDigits(n, d)
    ensures Value(n, d) < Radix(n)
  {
    if n != [] {
      ValueBound(n[1..], d[1..]);
      MulStep(n[0] + 1, Value(n[1..], d[1..]), Radix(n[1..]));
    }
  }

  lemma {:induction false} ValuePositive(n: seq<nat>, d: seq<nat>, i: nat)
    requires |d| == |n| && i < |n| && d[i] > 0
    ensures Value(n, d) > 0
  {
    if i > 0 {
      ValuePositive(n[1..], d[1..], i - 1);
      MulStep(n[0] + 1, 0, Value(n[1..], d[1..]));
    }
  }

  lemma Congruent(m: nat, a: nat, x: nat, y: nat)
    requires a < m && a + m * x == m * y
    ensures a == 0 && x == y
  {
    MulStep(m, x, y);
    MulStep(m, y, x);
  }

  /** The number with only digit `c` at place `i` is written so in one way. */
  lemma {:induction false} PlacedDigits(n: seq<nat>, d: seq<nat>, i: nat, c: nat)
    requires IsDigits(n, d) && i < |n| && 1 <= c <= n[i]
    requires Value(n, d) == Placed(n, i, c)
    ensures d[i] == c && forall j :: 0 <= j < i ==> d[j] == 0
  {
    var m, v := n[0] + 1, Value(n[1..], d[1..]);
    if i == 0 {
      MulStep(m, 0, v);
    } else {
      Congruent(m, d[0], v, Placed(n[1..], i - 1, c));
      PlacedDigits(n[1..], d[1..], i - 1, c);
    }
  }

  lemma {:induction false} PlacedValue(n: seq<nat>, d: seq<nat>, i: nat)
    requires |d| == |n| && i < |n|
    requires forall j :: 0 <= j < |n| && j != i ==> d[j] == 0
    ensures Value(n, d) == Placed(n, i, d[i])
  {
    if i == 0 {
      ValueZero(n[1..], d[1..]);
    } else {
      PlacedValue(n[1..], d[1..], i - 1);
    }
  }

  lemma {:induction false} ValueZero(n: seq<nat>, d: seq<nat>)
    requires |d| == |n| && forall j :: 0 <= j < |n| ==> d[j] == 0
    ensures Value(n, d) == 0
  {
    if n != [] { ValueZero(n[1..], d[1..]); }
  }

  lemma PlacedFits(n: seq<nat>, i: nat, c: nat)
    requires i < |n| && 1 <= c <= n[i]
    ensures 1 <= Placed(n, i, c) < Radix(n)
  {
    var d := seq(|n|, j requires 0 <= j < |n| => if j == i then c else 0);
    PlacedValue(n, d, i);
    ValueBound(n, d);
    ValuePositive(n, d, i);
  }

  // ----- the scheduler's number

  ghost function IndexOf(l: seq<Pid>, p: Pid): (k: nat)
    ensures k <= |l| && (k < |l| <==> p in l) && (k < |l| ==> l[k] == p)
  {
    if l == [] then 0 else if l[0] == p then 0 else 1 + IndexOf(l[1..], p)
  }

  /** Tasks that remain in this turn of queue `l` with the cursor at `c`; none when `c` is 0. */
  ghost function Left(l: seq<Pid>, c: Pid): nat {
    |l| - IndexOf(l, c)
  }

  ghost function Sizes(q: Queues): (n: seq<nat>)
    requires |q.active| == PRI_COUNT
    ensures |n| == PRI_IDLE
  {
    seq(PRI_IDLE, i requires 0 <= i < PRI_IDLE => |q.active[i]|)
  }

  ghost function Digits(s: Sys, q: Queues): (d: seq<nat>)
    requires |q.active| == |s.crActive| == PRI_COUNT
    ensures |d| == PRI_IDLE
  {
    seq(PRI_IDLE, i requires 0 <= i < PRI_IDLE => Left(q.active[i], s.crActive[i]))
  }

  /** When every queue has turned around, all of them start over. */
  ghost function Effective(s: Sys, q: Queues): (d: seq<nat>)
    requires |q.active| == |s.crActive| == PRI_COUNT
    ensures |d| == PRI_IDLE
  {
    if Value(Sizes(q), Digits(s, q)) == 0 then Sizes(q) else Digits(s, q)
  }

  lemma {:induction false} ScanSpec(hd: seq<Pid>, cr: seq<Pid>, i: nat)
    requires |hd| == |cr| == PRI_COUNT && i <= PRI_IDLE
    requires forall j :: 0 <= j < PRI_IDLE && hd[j] == 0 ==> cr[j] == 0
    ensures var r := Scan(hd, cr, i);
            && (forall j :: i <= j < r.at ==> cr[j] == 0 && r.cr[j] == hd[j])
            && (forall j :: 0 <= j < PRI_COUNT && !(i <= j < r.at) ==> r.cr[j] == cr[j])
            && (r.at < PRI_IDLE ==> hd[r.at] != 0 && cr[r.at] != 0)
    decreases PRI_IDLE - i
  {
    if i < PRI_IDLE {
      if hd[i] == 0 {
        ScanSpec(hd, cr, i + 1);
      } else if cr[i] == 0 {
        ScanSpec(hd, cr[i := hd[i]], i + 1);
      }
    }
  }

  ghost predicate AllTurned(cr: seq<Pid>)
    requires |cr| == PRI_COUNT
  {
    forall j :: 0 <= j < PRI_IDLE ==> cr[j] == 0
  }

  lemma ChooseSpec(hd: seq<Pid>, cr: seq<Pid>)
    requires |hd| == |cr| == PRI_COUNT && AnyReady(hd)
    requires forall j :: 0 <= j < PRI_IDLE && hd[j] == 0 ==> cr[j] == 0
    ensures var c := Choose(hd, cr);
            && c.at < PRI_IDLE && hd[c.at] != 0
            && (forall j :: 0 <= j < c.at ==> (if AllTurned(cr) then hd[j] else cr[j]) == 0 && c.cr[j] == hd[j])
            && (forall j :: c.at <= j < PRI_IDLE ==> c.cr[j] == if AllTurned(cr) then hd[j] else cr[j])
            && c.cr[c.at] != 0 && c.cr[PRI_IDLE] == cr[PRI_IDLE]
  {
    var a := Scan(hd, cr, 0);
    ScanSpec(hd, cr, 0);
    if a.at == PRI_IDLE {
      ScanSpec(hd, a.cr, 0);
      assert AllTurned(cr);
    } else {
      assert !AllTurned(cr);
    }
  }

  lemma LeftSpec(l: seq<Pid>, j: nat)
    requires Distinct(l) && j < |l|
    ensures Left(l, l[j]) == |l| - j
  {
  }

  lemma QueueDigits(s: Sys, q: Queues, i: nat)
    requires Inv(s, q) && i < PRI_COUNT
    ensures s.hdActive[i] == 0 <==> q.active[i] == []
    ensures s.hdActive[i] == 0 ==> s.crActive[i] == 0
    ensures Left(q.active[i], 0) == 0
    ensures Left(q.active[i], s.hdActive[i]) == |q.active[i]|
    ensures Left(q.active[i], s.crActive[i]) == 0 <==> s.crActive[i] == 0
  {
    assert ActiveQueue(s, q.active[i], i);
    assert 0 !in q.active[i];
  }

  lemma TurnedIffZero(s: Sys, q: Queues)
    requires Inv(s, q)
    ensures IsDigits(Sizes(q), Digits(s, q))
    ensures AllTurned(s.crActive) <==> Value(Sizes(q), Digits(s, q)) == 0
  {
    var n, d := Sizes(q), Digits(s, q);
    forall i | 0 <= i < PRI_IDLE
      ensures d[i] == 0 <==> s.crActive[i] == 0
    {
      QueueDigits(s, q, i);
    }
    if AllTurned(s.crActive) {
      ValueZero(n, d);
    } else {
      var i :| 0 <= i < PRI_IDLE && s.crActive[i] != 0;
      ValuePositive(n, d, i);
    }
  }

  lemma ChosenCursor(s: Sys, q: Queues)
    requires Inv(s, q) && AnyReady(s.hdActive)
    ensures var c := Choose(s.hdActive, s.crActive);
            && c.at < PRI_IDLE && Chosen(s) == c.cr[c.at] && Chosen(s) in q.active[c.at]
            && Left(q.active[c.at], Chosen(s)) == Effective(s, q)[c.at]
  {
    EmptyCursors(s, q);
    ChooseSpec(s.hdActive, s.crActive);
    TurnedIffZero(s, q);
    var c := Choose(s.hdActive, s.crActive);
    assert ActiveQueue(s, q.active[c.at], c.at);
  }

  /** The cursor of the chosen queue is on a member; its successor is the next cursor. */
  lemma ChosenMember(s: Sys, q: Queues) returns (at: nat, j: nat)
    requires Inv(s, q) && AnyReady(s.hdActive)
    ensures at == Choose(s.hdActive, s.crActive).at < PRI_IDLE
    ensures j < |q.active[at]| && Effective(s, q)[at] == |q.active[at]| - j
    ensures Chosen(s) == q.active[at][j] && Chosen(s) in s.tcb
    ensures Left(q.active[at], s.tcb[Chosen(s)].next) == |q.active[at]| - j - 1
    ensures s.tcb[Chosen(s)].next == 0 || s.tcb[Chosen(s)].next in q.active[at]
  {
    ChosenCursor(s, q);
    at := Choose(s.hdActive, s.crActive).at;
    assert ActiveQueue(s, q.active[at], at);
    CursorNode(s.tcb, q.active[at], Chosen(s));
    j := |q.active[at]| - Left(q.active[at], Chosen(s));
  }

  lemma EmptyCursors(s: Sys, q: Queues)
    requires Inv(s, q)
    ensures forall j :: 0 <= j < PRI_COUNT && s.hdActive[j] == 0 ==> s.crActive[j] == 0 && q.active[j] == []
    ensures forall j :: 0 <= j < PRI_COUNT ==> Left(q.active[j], 0) == 0 && Left(q.active[j], s.hdActive[j]) == |q.active[j]|
  {
    forall j | 0 <= j < PRI_COUNT
      ensures s.hdActive[j] == 0 ==> s.crActive[j] == 0 && q.active[j] == []
      ensures Left(q.active[j], 0) == 0 && Left(q.active[j], s.hdActive[j]) == |q.active[j]|
    {
      QueueDigits(s, q, j);
    }
  }

  lemma CursorNode(t: Tasks, l: seq<Pid>, c: Pid)
    requires Linked(t, l) && 0 !in t && c in l
    ensures var j := |l| - Left(l, c);
            && 0 <= j < |l| && l[j] == c && c in t && t[c].next == At(l, j + 1)
            && Left(l, t[c].next) == |l| - j - 1
            && (t[c].next == 0 || t[c].next in l)
  {
    var j := IndexOf(l, c);
    LinkedMembers(t, l);
    assert Node(t, l, j);
    if j + 1 < |l| { LeftSpec(l, j + 1); }
  }

  lemma PickDigits(s: Sys, q: Queues, current: Pid, idle: nat)
    requires Inv(s, q) && AnyReady(s.hdActive)
    ensures var s' := Pick(s, current, idle);
            |s'.crActive| == PRI_COUNT
            && Borrow(Sizes(q), Effective(s, q), Digits(s', q), Choose(s.hdActive, s.crActive).at)
  {
    hide Scan;
    hide Choose;
    hide Left;
    hide Value;
    var s' := Pick(s, current, idle);
    var at, j := ChosenMember(s, q);
    EmptyCursors(s, q);
    ChooseSpec(s.hdActive, s.crActive);
    TurnedIffZero(s, q);
  }

  lemma PickCursor(s: Sys, q: Queues, current: Pid, idle: nat, i: nat)
    requires Inv(s, q) && i < PRI_COUNT
    ensures var c := Pick(s, current, idle).crActive[i]; c == 0 || c in q.active[i]
  {
    EmptyCursors(s, q);
    assert ActiveQueue(s, q.active[i], i);
    if AnyReady(s.hdActive) {
      var at, j := ChosenMember(s, q);
      ChooseSpec(s.hdActive, s.crActive);
    } else {
      ScanSpec(s.hdActive, s.crActive, 0);
      if i == PRI_IDLE { IdleNext(s, q); }
    }
  }

  /** A pick changes no queue, only cursors, and keeps them on members. */
  lemma PickInv(s: Sys, q: Queues, current: Pid, idle: nat)
    requires Inv(s, q)
    ensures Inv(Pick(s, current, idle), q)
  {
    var s' := Pick(s, current, idle);
    assert s'.tcb == s.tcb && s'.hdActive == s.hdActive && s'.hdBlocked == s.hdBlocked;
    forall i | 0 <= i < PRI_COUNT
      ensures ActiveQueue(s', q.active[i], i)
    {
      PickCursor(s, q, current, idle, i);
      assert ActiveQueue(s, q.active[i], i);
    }
  }

  lemma IdleNext(s: Sys, q: Queues)
    requires Inv(s, q) && !AnyReady(s.hdActive)
    ensures var l, c := q.active[PRI_IDLE], Choose(s.hdActive, s.crActive);
            && c.at == PRI_IDLE && Chosen(s) == c.cr[PRI_IDLE]
            && c.cr[PRI_IDLE] == (if s.crActive[PRI_IDLE] == 0 then s.hdActive[PRI_IDLE] else s.crActive[PRI_IDLE])
            && (l != [] ==> Chosen(s) in l && Chosen(s) in s.tcb
                            && (s.tcb[Chosen(s)].next == 0 || s.tcb[Chosen(s)].next in l))
  {
    var l := q.active[PRI_IDLE];
    assert ActiveQueue(s, l, PRI_IDLE);
    EmptyCursors(s, q);
    ScanSpec(s.hdActive, s.crActive, 0);
    if l != [] { CursorNode(s.tcb, l, Chosen(s)); }
  }

  // ----- consecutive picks with unchanged queues; `cur(k)` is the running task at call k

  ghost function Picks(s: Sys, k: nat, cur: nat -> Pid, idle: nat): (r: Sys)
    requires |s.hdActive| == |s.crActive| == PRI_COUNT
    ensures r.hdActive == s.hdActive && |r.crActive| == PRI_COUNT
  {
    if k == 0 then s else Pick(Picks(s, k - 1, cur, idle), cur(k - 1), idle)
  }

  lemma InvSizes(s: Sys, q: Queues)
    requires Inv(s, q)
    ensures |s.hdActive| == |s.crActive| == |q.active| == PRI_COUNT
  {
  }

  lemma {:induction false} PicksInv(s: Sys, q: Queues, k: nat, cur: nat -> Pid, idle: nat)
    requires Inv(s, q)
    ensures Inv(Picks(s, k, cur, idle), q)
  {
    hide *;
    InvSizes(s, q);
    PicksZero(s, cur, idle);
    if k > 0 {
      PicksInv(s, q, k - 1, cur, idle);
      PickInv(Picks(s, k - 1, cur, idle), q, cur(k - 1), idle);
      PicksNext(s, k - 1, cur, idle);
    }
  }

  lemma PicksZero(s: Sys, cur: nat -> Pid, idle: nat)
    requires |s.hdActive| == |s.crActive| == PRI_COUNT
    ensures Picks(s, 0, cur, idle) == s
  {
  }

  lemma PicksNext(s: Sys, k: nat, cur: nat -> Pid, idle: nat)
    requires |s.hdActive| == |s.crActive| == PRI_COUNT
    ensures Picks(s, k + 1, cur, idle) == Pick(Picks(s, k, cur, idle), cur(k), idle)
  {
  }

  ghost function Counter(s: Sys, q: Queues): nat
    requires |q.active| == |s.crActive| == PRI_COUNT
  {
    Value(Sizes(q), Effective(s, q))
  }

  lemma CounterRange(s: Sys, q: Queues)
    requires Inv(s, q) && AnyReady(s.hdActive)
    ensures 1 <= Counter(s, q) < Radix(Sizes(q))
    ensures IsDigits(Sizes(q), Effective(s, q))
  {
    TurnedIffZero(s, q);
    ValueBound(Sizes(q), Effective(s, q));
    EmptyCursors(s, q);
    var i :| 0 <= i < PRI_IDLE && s.hdActive[i] != 0;
    QueueDigits(s, q, i);
    ValuePositive(Sizes(q), Sizes(q), i);
  }

  /** Each pick takes one from the mixed-radix number; from zero it goes to the largest minus one. */
  lemma PickCounts(s: Sys, q: Queues, current: Pid, idle: nat)
    requires Inv(s, q) && AnyReady(s.hdActive)
    ensures var n, s' := Sizes(q), Pick(s, current, idle);
            var v, v' := Value(n, Digits(s, q)), Value(n, Digits(s', q));
            v' == if v == 0 then Radix(n) - 2 else v - 1
    ensures Counter(Pick(s, current, idle), q) == if Counter(s, q) == 1 then Radix(Sizes(q)) - 1 else Counter(s, q) - 1
  {
    var s', k := Pick(s, current, idle), Choose(s.hdActive, s.crActive).at;
    PickDigits(s, q, current, idle);
    BorrowValue(Sizes(q), Effective(s, q), Digits(s', q), k);
    ValueFull(Sizes(q));
  }

  lemma PicksCount(s: Sys, q: Queues, k: nat, cur: nat -> Pid, idle: nat)
    requires Inv(s, q) && AnyReady(s.hdActive)
    ensures var c := Counter(Picks(s, k, cur, idle), q);
            Counter(Picks(s, k + 1, cur, idle), q) == if c == 1 then Radix(Sizes(q)) - 1 else c - 1
  {
    PicksInv(s, q, k, cur, idle);
    PickCounts(Picks(s, k, cur, idle), q, cur(k), idle);
  }

  lemma {:induction false} CountDown(f: nat -> nat, m: nat, k: nat)
    requires 1 <= f(0) <= m && k < m
    requires forall i: nat :: f(i + 1) == if f(i) == 1 then m else f(i) - 1
    ensures f(k) == if k < f(0) then f(0) - k else f(0) - k + m
  {
    if k > 0 {
      CountDown(f, m, k - 1);
      assert f(k - 1 + 1) == f(k);
    }
  }

  lemma CounterAfter(s: Sys, q: Queues, k: nat, cur: nat -> Pid, idle: nat)
    requires Inv(s, q) && AnyReady(s.hdActive) && k < Radix(Sizes(q)) - 1
    ensures var c := Counter(s, q);
            Counter(Picks(s, k, cur, idle), q) == if k < c then c - k else c - k + Radix(Sizes(q)) - 1
  {
    CounterRange(s, q);
    var f := (i: nat) => Counter(Picks(s, i, cur, idle), q);
    forall i: nat
      ensures f(i + 1) == if f(i) == 1 then Radix(Sizes(q)) - 1 else f(i) - 1
    {
      PicksCount(s, q, i, cur, idle);
    }
    CountDown(f, Radix(Sizes(q)) - 1, k);
  }

  /** What the number says about the chosen task: queue `i` is served, at its member `j`, when only
      the digit of that queue is left, at the tasks from `j` on. */
  lemma ChosenAt(s: Sys, q: Queues, i: nat, j: nat)
    requires Inv(s, q) && i < PRI_IDLE && j < |q.active[i]|
    requires Counter(s, q) == Placed(Sizes(q), i, |q.active[i]| - j)
    ensures Chosen(s) == q.active[i][j]
  {
    InvSizes(s, q);
    hide Inv;
    hide Effective;
    hide Value;
    hide Placed;
    hide Radix;
    hide Scan;
    hide Choose;
    hide Left;
    QueueDigits(s, q, i);
    CounterRange(s, q);
    PlacedDigits(Sizes(q), Effective(s, q), i, |q.active[i]| - j);
    ChosenFromDigits(s, q, i, j);
  }

  lemma ChosenFromDigits(s: Sys, q: Queues, i: nat, j: nat)
    requires Inv(s, q) && AnyReady(s.hdActive) && i < PRI_IDLE && j < |q.active[i]|
    requires Effective(s, q)[i] == |q.active[i]| - j
    requires forall l :: 0 <= l < i ==> Effective(s, q)[l] == 0
    ensures Chosen(s) == q.active[i][j]
  {
    hide Inv;
    InvSizes(s, q);
    hide Left;
    hide Effective;
    hide Scan;
    hide Choose;
    hide Chosen;
    hide AnyReady;
    hide Sizes;
    var at, k := ChosenMember(s, q);
    ChosenFirst(s, q);
    var d := Effective(s, q);
    assert d[at] >= 1 && d[i] >= 1;
    assert at == i && k == j;
  }

  lemma ChosenFirst(s: Sys, q: Queues)
    requires Inv(s, q) && AnyReady(s.hdActive)
    ensures forall j :: 0 <= j < Choose(s.hdActive, s.crActive).at && j < PRI_IDLE ==> Effective(s, q)[j] == 0
  {
    PickDigits(s, q, 0, 0);
  }

  /** With unchanged queues, every ready task is picked within any Radix - 1 consecutive calls,
      where Radix is the product of the queue lengths plus one. */
  lemma NoStarvation(s: Sys, q: Queues, i: nat, j: nat, cur: nat -> Pid, idle: nat) returns (k: nat)
    requires Inv(s, q) && i < PRI_IDLE && j < |q.active[i]|
    ensures k < Radix(Sizes(q)) - 1
    ensures Chosen(Picks(s, k, cur, idle)) == q.active[i][j]
  {
    QueueDigits(s, q, i);
    CounterRange(s, q);
    var n := Sizes(q);
    var c, t := Counter(s, q), Placed(n, i, |q.active[i]| - j);
    PlacedFits(n, i, |q.active[i]| - j);
    k := if t <= c then c - t else c - t + Radix(n) - 1;
    CounterAfter(s, q, k, cur, idle);
    PicksInv(s, q, k, cur, idle);
    ChosenAt(Picks(s, k, cur, idle), q, i, j);
  }

  lemma SameMember(s: Sys, q: Queues, i: nat, j: nat, at: nat, k: nat)
    requires Inv(s, q) && i < PRI_IDLE && j < |q.active[i]| && at < PRI_IDLE && k < |q.active[at]|
    requires q.active[i][j] == q.active[at][k]
    ensures at == i && k == j
  {
    QueuesDisjoint(s, q);
    assert ActiveQueue(s, q.active[i], i);
    assert q.active[at][k] in q.active[i] && q.active[i][j] in q.active[at];
  }

  /** A task of the last non-empty queue is chosen at exactly one value of the counter. */
  lemma ChosenOnlyAt(s: Sys, q: Queues, i: nat, j: nat)
    requires Inv(s, q) && i < PRI_IDLE && j < |q.active[i]|
    requires forall l :: i < l < PRI_IDLE ==> q.active[l] == []
    requires Chosen(s) == q.active[i][j]
    ensures Counter(s, q) == Placed(Sizes(q), i, |q.active[i]| - j)
  {
    InvSizes(s, q);
    hide Inv;
    hide Effective;
    hide Value;
    hide Placed;
    hide Radix;
    hide Scan;
    hide Choose;
    hide Left;
    QueueDigits(s, q, i);
    CounterRange(s, q);
    OnlyDigit(s, q, i, j);
    var n, d := Sizes(q), Effective(s, q);
    assert forall l :: i < l < PRI_IDLE ==> d[l] <= n[l] == 0;
    PlacedValue(n, d, i);
  }

  /** Then no other digit is left. */
  lemma OnlyDigit(s: Sys, q: Queues, i: nat, j: nat)
    requires Inv(s, q) && AnyReady(s.hdActive) && i < PRI_IDLE && j < |q.active[i]| && Chosen(s) == q.active[i][j]
    ensures Effective(s, q)[i] == |q.active[i]| - j
    ensures forall l :: 0 <= l < i ==> Effective(s, q)[l] == 0
  {
    hide Inv;
    hide Left;
    hide Effective;
    hide Scan;
    var at, k := ChosenMember(s, q);
    ChosenFirst(s, q);
    SameMember(s, q, i, j, at, k);
  }

  /** The bound is exact: a task of the last non-empty queue is picked only once in that many calls. */
  lemma WaitIsExact(s: Sys, q: Queues, i: nat, j: nat, k: nat, m: nat, cur: nat -> Pid, idle: nat)
    requires Inv(s, q) && i < PRI_IDLE && j < |q.active[i]|
    requires forall l :: i < l < PRI_IDLE ==> q.active[l] == []
    requires k < Radix(Sizes(q)) - 1 && m < Radix(Sizes(q)) - 1
    requires Chosen(Picks(s, k, cur, idle)) == q.active[i][j] == Chosen(Picks(s, m, cur, idle))
    ensures k == m
  {
    QueueDigits(s, q, i);
    CounterRange(s, q);
    PicksInv(s, q, k, cur, idle);
    PicksInv(s, q, m, cur, idle);
    ChosenOnlyAt(Picks(s, k, cur, idle), q, i, j);
    ChosenOnlyAt(Picks(s, m, cur, idle), q, i, j);
    CounterAfter(s, q, k, cur, idle);
    CounterAfter(s, q, m, cur, idle);
  }
}
