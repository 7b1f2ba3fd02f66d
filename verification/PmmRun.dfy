/** Whole runs of the physical memory manager, with the pages that callers hold. */
module PmmRun {
  import opened PmmTable

  /** The table, the counter, and the pages handed out and not freed since. */
  datatype State = State(t: seq<Frag>, freepages: int, held: set<nat>)

  datatype Step = Alloc(n: nat) | AllocSlot | Free(base: nat, n: nat)

  function Pages(base: nat, n: nat): set<nat> {
    set x | base <= x < base + n && InRange(base, n, x)
  }

  /** Callers free only what they hold. An allocation that fails stops the kernel. */
  ghost predicate Enabled(s: State, step: Step) {
    match step
    case Alloc(n) => FirstFit(s.t, n) < |s.t|
    case AllocSlot => FirstSlot(s.t) < |s.t|
    case Free(base, n) => base + n <= LIMIT && Pages(base, n) <= s.held
  }

  /** First page and number of pages that the step hands out. */
  ghost function Grant(s: State, step: Step): (nat, nat)
    requires Enabled(s, step)
  {
    match step
    case Alloc(n) => (s.t[FirstFit(s.t, n)].base, n)
    case AllocSlot => (SlotBase(s.t[FirstSlot(s.t)]), SLOT_PAGES)
    case Free(base, n) => (base, 0)
  }

  ghost function Exec(s: State, step: Step): State
    requires Enabled(s, step)
  {
    var g := Grant(s, step);
    match step
    case Alloc(n) => State(AllocAt(s.t, FirstFit(s.t, n), n), s.freepages - n, s.held + Pages(g.0, g.1))
    case AllocSlot => State(SlotAt(s.t, FirstSlot(s.t)), s.freepages - SLOT_PAGES, s.held + Pages(g.0, g.1))
    case Free(base, n) => State(FreeTable(s.t, base, n), s.freepages + n, s.held - Pages(base, n))
  }

  /** Fragments are sound, nothing held is free, and free and held pages make up the total. */
  ghost predicate Inv(s: State, total: nat) {
    && Valid(s.t)
    && (forall x <- s.held :: !IsFree(s.t, x))
    && s.freepages + |s.held| == total
    && s.freepages >= Sum(s.t)
  }

  /** Pages that the counter counts and the table does not have. */
  ghost function Lost(s: State): int {
    s.freepages - Sum(s.t)
  }

  lemma {:induction false} PagesSize(base: nat, n: nat)
    ensures |Pages(base, n)| == n
  {
    if n > 0 {
      PagesSize(base, n - 1);
      assert Pages(base, n) == Pages(base, n - 1) + {base + n - 1};
    } else {
      assert Pages(base, 0) == {};
    }
  }

  /** A grant is a run of pages that were free and that nobody holds; a slot grant is slot aligned. */
  lemma GrantIsFresh(s: State, step: Step, total: nat)
    requires Inv(s, total) && Enabled(s, step)
    ensures var g := Grant(s, step);
            && (forall x :: InRange(g.0, g.1, x) ==> IsFree(s.t, x) && x !in s.held)
            && (step.AllocSlot? ==> g.0 % SLOT_PAGES == 0)
  {
    match step {
      case Alloc(n) => AllocTakes(s.t, FirstFit(s.t, n), n);
      case AllocSlot => SlotTakes(s.t, FirstSlot(s.t));
      case Free(_, _) =>
    }
  }

  lemma HeldGrows(s: State, base: nat, n: nat)
    requires forall x :: InRange(base, n, x) ==> x !in s.held
    ensures |s.held + Pages(base, n)| == |s.held| + n
  {
    PagesSize(base, n);
    assert s.held !! Pages(base, n) by {
      forall x | x in Pages(base, n)
        ensures x !in s.held
      {
        assert InRange(base, n, x);
      }
    }
  }

  lemma HeldShrinks(s: State, base: nat, n: nat)
    requires Pages(base, n) <= s.held
    ensures |s.held - Pages(base, n)| == |s.held| - n
  {
    PagesSize(base, n);
    assert s.held == (s.held - Pages(base, n)) + Pages(base, n);
  }

  lemma AllocKeeps(s: State, n: nat, total: nat)
    requires Inv(s, total) && Enabled(s, Alloc(n))
    ensures Inv(Exec(s, Alloc(n)), total) && Lost(Exec(s, Alloc(n))) == Lost(s)
  {
    var i := FirstFit(s.t, n);
    GrantIsFresh(s, Alloc(n), total);
    AllocValid(s.t, i, n);
    AllocSum(s.t, i, n);
    AllocTakes(s.t, i, n);
    HeldGrows(s, s.t[i].base, n);
    forall x | x in Pages(s.t[i].base, n)
      ensures !IsFree(AllocAt(s.t, i, n), x)
    {
      assert InRange(s.t[i].base, n, x);
    }
  }

  lemma SlotKeeps(s: State, total: nat)
    requires Inv(s, total) && Enabled(s, AllocSlot)
    ensures Inv(Exec(s, AllocSlot), total)
    ensures var f := s.t[FirstSlot(s.t)];
            Lost(Exec(s, AllocSlot)) == Lost(s) + if Leaks(f) then Lead(f).size else 0
  {
    var i := FirstSlot(s.t);
    var b := SlotBase(s.t[i]);
    GrantIsFresh(s, AllocSlot, total);
    SlotValid(s.t, i);
    SlotSum(s.t, i);
    SlotTakes(s.t, i);
    HeldGrows(s, b, SLOT_PAGES);
    forall x | x in Pages(b, SLOT_PAGES)
      ensures !IsFree(SlotAt(s.t, i), x)
    {
      assert InRange(b, SLOT_PAGES, x);
    }
  }

  lemma FreeKeeps(s: State, base: nat, n: nat, total: nat)
    requires Inv(s, total) && Enabled(s, Free(base, n))
    ensures Inv(Exec(s, Free(base, n)), total) && Lost(Exec(s, Free(base, n))) == Lost(s)
  {
    forall x | InRange(base, n, x)
      ensures !IsFree(s.t, x)
    {
      assert x in Pages(base, n);
    }
    FreeValid(s.t, base, n);
    FreeSum(s.t, base, n);
    HeldShrinks(s, base, n);
    forall x | x in s.held - Pages(base, n)
      ensures !IsFree(FreeTable(s.t, base, n), x)
    {
      FreeGives(s.t, base, n, x);
    }
  }

  ghost predicate Runs(s: State, steps: seq<Step>, s': State)
    decreases |steps|
  {
    if steps == [] then s' == s
    else Enabled(s, steps[0]) && Runs(Exec(s, steps[0]), steps[1..], s')
  }

  /** Over every run: the table stays sound, no held page is free, the counter never exceeds the
      total, and the pages lost by leaking splits never come back. */
  lemma {:induction false} RunKeeps(s: State, steps: seq<Step>, s': State, total: nat)
    requires Inv(s, total) && Runs(s, steps, s')
    ensures Inv(s', total) && s'.freepages <= total && Lost(s') >= Lost(s)
    decreases |steps|
  {
    if steps != [] {
      match steps[0] {
        case Alloc(n) => AllocKeeps(s, n, total);
        case AllocSlot => SlotKeeps(s, total);
        case Free(base, n) => FreeKeeps(s, base, n, total);
      }
      RunKeeps(Exec(s, steps[0]), steps[1..], s', total);
    }
  }

  /** No page is handed out again before it is freed: in every run, what a step grants after a
      prefix of the run is disjoint from what was granted before and not freed since. */
  lemma NeverTwice(s: State, before: seq<Step>, mid: State, step: Step, total: nat)
    requires Inv(s, total) && Runs(s, before, mid) && Enabled(mid, step)
    ensures var g := Grant(mid, step); Pages(g.0, g.1) !! mid.held
  {
    RunKeeps(s, before, mid, total);
    GrantIsFresh(mid, step, total);
    var g := Grant(mid, step);
    forall x | x in Pages(g.0, g.1)
      ensures x !in mid.held
    {
      assert InRange(g.0, g.1, x);
    }
  }

  // ----- empty entries

  /** The steps that may leave an empty entry: a slot cut from the end of a fragment, and freeing no pages. */
  ghost predicate Wasteful(s: State, step: Step)
    requires Enabled(s, step)
  {
    match step
    case Alloc(n) => false
    case AllocSlot => Leaks(s.t[FirstSlot(s.t)])
    case Free(base, n) => n == 0
  }

  /** How many of them there are in a run. */
  ghost function Waste(s: State, steps: seq<Step>): nat
    decreases |steps|
  {
    if steps == [] || !Enabled(s, steps[0]) then 0
    else (if Wasteful(s, steps[0]) then 1 else 0) + Waste(Exec(s, steps[0]), steps[1..])
  }

  lemma StepWaste(s: State, step: Step)
    requires Enabled(s, step)
    ensures Empties(Exec(s, step).t) <= Empties(s.t) + if Wasteful(s, step) then 1 else 0
  {
    match step {
      case Alloc(n) =>
        var i := FirstFit(s.t, n);
        if n > 0 { AllocShape(s.t, i, n); } else { AllocNone(s.t, i); }
      case AllocSlot => SlotShape(s.t, FirstSlot(s.t));
      case Free(base, n) => FreeShape(s.t, base, n);
    }
  }

  /** Allocating no pages only takes an empty entry away. */
  lemma AllocNone(t: seq<Frag>, i: nat)
    requires i < |t|
    ensures Empties(AllocAt(t, i, 0)) <= Empties(t)
    ensures t[i].size > 0 ==> AllocAt(t, i, 0) == t
  {
    EmptiesSpliced(t, i, []);
    assert Deleted(t, i) == t[..i] + [] + t[i + 1..];
    assert t[i := Frag(t[i].base + 0, t[i].size - 0)] == t;
  }

  /** In every run there are at most as many empty entries more as there were wasteful steps: without those the
      table holds nothing but free pages. */
  lemma {:induction false} RunWaste(s: State, steps: seq<Step>, s': State)
    requires Runs(s, steps, s')
    ensures Empties(s'.t) <= Empties(s.t) + Waste(s, steps)
    decreases |steps|
  {
    if steps != [] {
      StepWaste(s, steps[0]);
      RunWaste(Exec(s, steps[0]), steps[1..], s');
    }
  }

  /** Such a table has at most one entry for every free page, so it does not fill up while memory is taken. */
  lemma {:induction false} EntriesBound(t: seq<Frag>)
    ensures |t| <= Sum(t) + Empties(t)
  {
    if t != [] {
      EntriesBound(t[1..]);
    }
  }
}
