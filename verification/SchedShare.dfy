/** How often a task is picked: exactly as often as the queues behind its own allow for. */
module SchedShare {
  import opened SchedState
  import opened SchedQueues
  import opened SchedPick

  // ----- counting

  /** How many numbers from `a` up to `b` satisfy `f`. */
  ghost function Tally(f: nat -> bool, a: nat, b: nat): nat
    decreases b
  {
    if b <= a then 0 else Tally(f, a, b - 1) + if f(b - 1) then 1 else 0
  }

  lemma {:induction false} TallySplit(f: nat -> bool, a: nat, m: nat, b: nat)
    requires a <= m <= b
    ensures Tally(f, a, b) == Tally(f, a, m) + Tally(f, m, b)
    decreases b
  {
    if m < b {
      TallySplit(f, a, m, b - 1);
    }
  }

  /** Counting backwards gives the same number. */
  lemma {:induction false} TallyReverse(f: nat -> bool, a: nat, g: nat -> bool, t: nat, l: nat)
    requires forall k: nat :: a <= k < a + l ==> f(k) == g(a + t + l - 1 - k)
    ensures Tally(f, a, a + l) == Tally(g, t, t + l)
    decreases l
  {
    if l > 0 {
      assert f(a + l - 1) == g(t);
      TallyReverse(f, a, g, t + 1, l - 1);
      TallySplit(g, t, t + 1, t + l);
    }
  }

  /** In a stretch of `m` numbers only the one at distance `c` can count. */
  lemma {:induction false} TallyOne(f: nat -> bool, s: nat, m: nat, c: nat, b: bool)
    requires forall v: nat :: s <= v < s + m ==> (f(v) <==> v == s + c && b)
    ensures Tally(f, s, s + m) == if c < m && b then 1 else 0
    decreases m
  {
    if m > 0 {
      TallyOne(f, s, m - 1, c, b);
      assert f(s + m - 1) <==> m - 1 == c && b;
    }
  }

  /** Numbers with remainder `c` are counted by their quotients. */
  lemma {:induction false} TallyBlocks(f: nat -> bool, g: nat -> bool, m: nat, c: nat, r: nat)
    requires c < m && forall v: nat :: f(v) <==> v % m == c && g(v / m)
    ensures Tally(f, 0, m * r) == Tally(g, 0, r)
    decreases r
  {
    if r > 0 {
      var x := r - 1;
      TallyBlocks(f, g, m, c, x);
      forall v: nat | m * x <= v < m * x + m ensures f(v) <==> v == m * x + c && g(x) {
        DivMod(m, v - m * x, x);
      }
      TallyOne(f, m * x, m, c, g(x));
      MulSucc(m, x);
      TallySplit(f, 0, m * x, m * r);
    }
  }

  lemma {:induction false} TallyAll(f: nat -> bool, r: nat)
    requires forall x: nat :: f(x)
    ensures Tally(f, 0, r) == r
  {
    if r > 0 {
      TallyAll(f, r - 1);
    }
  }

  // ----- digits of a number

  /** Digit `i` of `v` is `c`, and all digits before it are zero. */
  ghost predicate Shows(n: seq<nat>, v: nat, i: nat, c: nat)
    requires i < |n|
    decreases i
  {
    var m := n[0] + 1;
    if i == 0 then v % m == c else v % m == 0 && Shows(n[1..], v / m, i - 1, c)
  }

  ghost function Showing(n: seq<nat>, i: nat, c: nat): nat -> bool
    requires i < |n|
  {
    (v: nat) => Shows(n, v, i, c)
  }

  lemma DivMod(m: nat, d: nat, x: nat)
    requires d < m
    ensures (d + m * x) % m == d && (d + m * x) / m == x
  {
    var v := d + m * x;
    var q, r := v / m, v % m;
    assert v == m * q + r;
    MulStep(m, x, q);
    MulStep(m, q, x);
  }

  lemma {:induction false} ShowsDigits(n: seq<nat>, d: seq<nat>, i: nat, c: nat)
    requires IsDigits(n, d) && i < |n|
    ensures Shows(n, Value(n, d), i, c) <==> d[i] == c && forall j :: 0 <= j < i ==> d[j] == 0
    decreases i
  {
    DivMod(n[0] + 1, d[0], Value(n[1..], d[1..]));
    if i > 0 {
      ShowsDigits(n[1..], d[1..], i - 1, c);
      assert d[1..][i - 1] == d[i];
      assert (forall j :: 0 <= j < i ==> d[j] == 0) <==> d[0] == 0 && forall j :: 0 <= j < i - 1 ==> d[1..][j] == 0;
    }
  }

  lemma {:induction false} ShowsZero(n: seq<nat>, i: nat, c: nat)
    requires i < |n| && c > 0
    ensures !Showing(n, i, c)(0)
    decreases i
  {
    DivMod(n[0] + 1, 0, 0);
    if i > 0 {
      ShowsZero(n[1..], i - 1, c);
    }
  }

  /** As many numbers show a digit at place `i` as there are numbers in the places behind it. */
  lemma {:induction false} ShowsTimes(n: seq<nat>, i: nat, c: nat)
    requires i < |n| && c <= n[i]
    ensures Tally(Showing(n, i, c), 0, Radix(n)) == Radix(n[i + 1..])
    decreases i
  {
    var m, r := n[0] + 1, Radix(n[1..]);
    var f := Showing(n, i, c);
    if i == 0 {
      var g := (x: nat) => true;
      TallyBlocks(f, g, m, c, r);
      TallyAll(g, r);
    } else {
      var g := Showing(n[1..], i - 1, c);
      TallyBlocks(f, g, m, 0, r);
      ShowsTimes(n[1..], i - 1, c);
      assert n[1..][i..] == n[i + 1..];
    }
  }

  /** A countdown that starts over visits every value of a full turn once. */
  lemma TallyTurn(f: nat -> bool, g: nat -> bool, c: nat, m: nat)
    requires 1 <= c <= m
    requires forall k: nat :: k < c ==> f(k) == g(c - k)
    requires forall k: nat :: c <= k < m ==> f(k) == g(c - k + m)
    ensures Tally(f, 0, m) == Tally(g, 1, m + 1)
  {
    hide Tally;
    assert forall k: nat :: c <= k < c + (m - c) ==> f(k) == g(c + (c + 1) + (m - c) - 1 - k);
    TallyReverse(f, 0, g, 1, c);
    TallyReverse(f, c, g, c + 1, m - c);
    TallySplit(f, 0, c, m);
    TallySplit(g, 1, c + 1, m + 1);
  }

  lemma TallyFrom(g: nat -> bool, m: nat)
    requires !g(0)
    ensures Tally(g, 0, m + 1) == Tally(g, 1, m + 1)
  {
    TallySplit(g, 0, 1, m + 1);
  }

  /** In a full turn of the countdown a digit shows as often as in all numbers. */
  lemma TurnTimes(f: nat -> bool, n: seq<nat>, i: nat, v: nat, c: nat)
    requires i < |n| && 1 <= v <= n[i] && 1 <= c < Radix(n)
    requires forall k: nat :: k < Radix(n) - 1 ==>
               f(k) == Showing(n, i, v)(if k < c then c - k else c - k + Radix(n) - 1)
    ensures Tally(f, 0, Radix(n) - 1) == Radix(n[i + 1..])
  {
    ShowsZero(n, i, v);
    ShowsTimes(n, i, v);
    hide *;
    var g, m := Showing(n, i, v), Radix(n) - 1;
    TallyTurn(f, g, c, m);
    TallyFrom(g, m);
  }

  // ----- the share of a task

  lemma ReadySizes(s: Sys, q: Queues, i: nat)
    requires Inv(s, q) && i < PRI_IDLE && q.active[i] != []
    ensures |s.hdActive| == |s.crActive| == |q.active| == PRI_COUNT && AnyReady(s.hdActive)
    ensures i < |q.active| && i < |Sizes(q)| && Sizes(q)[i] == |q.active[i]|
  {
    QueueDigits(s, q, i);
  }

  lemma CounterValue(s: Sys, q: Queues)
    requires |q.active| == |s.crActive| == PRI_COUNT
    ensures Counter(s, q) == Value(Sizes(q), Effective(s, q)) && |Sizes(q)| == |Effective(s, q)| == PRI_IDLE
  {
  }

  /** A task is chosen exactly when the scheduler's number shows its digit. */
  lemma ChosenIffShows(s: Sys, q: Queues, i: nat, j: nat)
    requires Inv(s, q) && AnyReady(s.hdActive) && i < PRI_IDLE && j < |q.active[i]|
    ensures Chosen(s) == q.active[i][j] <==> Shows(Sizes(q), Counter(s, q), i, |q.active[i]| - j)
  {
    hide *;
    ReadySizes(s, q, i);
    CounterValue(s, q);
    CounterRange(s, q);
    ShowsDigits(Sizes(q), Effective(s, q), i, |q.active[i]| - j);
    if Chosen(s) == q.active[i][j] {
      OnlyDigit(s, q, i, j);
    }
    if Shows(Sizes(q), Counter(s, q), i, |q.active[i]| - j) {
      ChosenFromDigits(s, q, i, j);
    }
  }

  /** The calls, counted from 0, that pick `p`. */
  ghost function Picking(s: Sys, p: Pid, cur: nat -> Pid, idle: nat): nat -> bool
    requires |s.hdActive| == |s.crActive| == PRI_COUNT
  {
    (k: nat) => Chosen(Picks(s, k, cur, idle)) == p
  }

  lemma PickShows(s: Sys, q: Queues, i: nat, j: nat, k: nat, cur: nat -> Pid, idle: nat)
    requires Inv(s, q) && AnyReady(s.hdActive) && i < PRI_IDLE && j < |q.active[i]| && k < Radix(Sizes(q)) - 1
    ensures var c := Counter(s, q);
            Picking(s, q.active[i][j], cur, idle)(k) ==
            Showing(Sizes(q), i, |q.active[i]| - j)(if k < c then c - k else c - k + Radix(Sizes(q)) - 1)
  {
    InvSizes(s, q);
    hide Inv;
    hide Radix;
    hide Counter;
    hide Shows;
    hide Picks;
    hide Chosen;
    CounterRange(s, q);
    PicksInv(s, q, k, cur, idle);
    ChosenIffShows(Picks(s, k, cur, idle), q, i, j);
    CounterAfter(s, q, k, cur, idle);
  }

  /** With unchanged queues, in any Radix - 1 consecutive calls each task of queue `i` is picked as
      often as the product of the lengths plus one of the queues behind it. */
  lemma FairShare(s: Sys, q: Queues, i: nat, j: nat, cur: nat -> Pid, idle: nat)
    requires Inv(s, q) && i < PRI_IDLE && j < |q.active[i]|
    ensures Tally(Picking(s, q.active[i][j], cur, idle), 0, Radix(Sizes(q)) - 1) == Radix(Sizes(q)[i + 1..])
  {
    hide *;
    ReadySizes(s, q, i);
    CounterRange(s, q);
    var n, v, c, f := Sizes(q), |q.active[i]| - j, Counter(s, q), Picking(s, q.active[i][j], cur, idle);
    forall k: nat | k < Radix(n) - 1
      ensures f(k) == Showing(n, i, v)(if k < c then c - k else c - k + Radix(n) - 1)
    {
      PickShows(s, q, i, j, k, cur, idle);
    }
    TurnTimes(f, n, i, v, c);
  }
}
