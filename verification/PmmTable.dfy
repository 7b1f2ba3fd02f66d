/** The physical memory manager's table of free fragments, as a sequence, and what allocating
    and freeing do to the set of free pages. */
module PmmTable {

  /** Pages of a 2M slot. */
  const SLOT_PAGES := 512
  /** Pages of a 52-bit physical address space. */
  const LIMIT := 0x100_0000_0000

  /** `size` pages from page number `base` on. */
  datatype Frag = Frag(base: nat, size: nat)

  function End(f: Frag): nat {
    f.base + f.size
  }

  predicate Covers(f: Frag, x: nat) {
    f.base <= x < End(f)
  }

  predicate InRange(base: nat, pages: nat, x: nat) {
    base <= x < base + pages
  }

  ghost predicate IsFree(t: seq<Frag>, x: nat) {
    exists i {:trigger Covers(t[i], x)} :: 0 <= i < |t| && Covers(t[i], x)
  }

  predicate Apart(f: Frag, g: Frag) {
    f.size == 0 || g.size == 0 || End(f) <= g.base || End(g) <= f.base
  }

  predicate Proper(f: Frag) {
    End(f) <= LIMIT
  }

  ghost predicate Disjoint(t: seq<Frag>) {
    forall i, j :: 0 <= i < j < |t| ==> Apart(t[i], t[j])
  }

  ghost predicate AllProper(t: seq<Frag>) {
    forall i :: 0 <= i < |t| ==> Proper(t[i])
  }

  /** Fragments of physical memory that do not overlap. An empty fragment may stay behind. */
  ghost predicate Valid(t: seq<Frag>) {
    AllProper(t) && Disjoint(t)
  }

  function Sum(t: seq<Frag>): nat {
    if t == [] then 0 else t[0].size + Sum(t[1..])
  }

  // ----- pmm_alloc

  function FirstFit(t: seq<Frag>, n: nat): (i: nat)
    ensures i <= |t|
    ensures i < |t| ==> t[i].size >= n
  {
    if t == [] || t[0].size >= n then 0 else 1 + FirstFit(t[1..], n)
  }

  function Deleted(t: seq<Frag>, i: nat): seq<Frag>
    requires i < |t|
  {
    t[..i] + t[i + 1..]
  }

  /** The first `n` pages of entry `i` are taken; an entry that becomes empty is removed. */
  function AllocAt(t: seq<Frag>, i: nat, n: nat): seq<Frag>
    requires i < |t| && n <= t[i].size
  {
    if t[i].size == n then Deleted(t, i) else t[i := Frag(t[i].base + n, t[i].size - n)]
  }

  // ----- pmm_allocslot

  function SlotBase(f: Frag): nat {
    (f.base + 511) / 512 * 512
  }

  predicate FitsSlot(f: Frag) {
    End(f) >= SlotBase(f) + SLOT_PAGES
  }

  function FirstSlot(t: seq<Frag>): (i: nat)
    ensures i <= |t|
    ensures i < |t| ==> FitsSlot(t[i])
  {
    if t == [] || FitsSlot(t[0]) then 0 else 1 + FirstSlot(t[1..])
  }

  /** The pages before the slot, and the fragment behind it. */
  function Lead(f: Frag): Frag {
    Frag(f.base, SlotBase(f) - f.base)
  }

  function Tail(f: Frag): Frag {
    Frag(SlotBase(f) + SLOT_PAGES, if FitsSlot(f) then f.size - (Lead(f).size + SLOT_PAGES) else 0)
  }

  /** The slot is at the very end of a fragment that has to be split: then the removal of the empty
      tail hits the leading part instead. */
  predicate Leaks(f: Frag) {
    SlotBase(f) != f.base && Tail(f).size == 0
  }

  /** A slot is cut out of entry `i`. */
  function SlotAt(t: seq<Frag>, i: nat): seq<Frag>
    requires i < |t|
  {
    if SlotBase(t[i]) != t[i].base then
      if Leaks(t[i]) then t[i := Tail(t[i])]
      else t[..i] + [Lead(t[i]), Tail(t[i])] + t[i + 1..]
    else if Tail(t[i]).size == 0 then Deleted(t, i)
    else t[i := Tail(t[i])]
  }

  // ----- pmm_free

  predicate Touches(f: Frag, base: nat, n: nat) {
    f.base == base + n || End(f) == base
  }

  function FirstTouching(t: seq<Frag>, base: nat, n: nat): (i: nat)
    ensures i <= |t|
    ensures i < |t| ==> Touches(t[i], base, n)
  {
    if t == [] || Touches(t[0], base, n) then 0 else 1 + FirstTouching(t[1..], base, n)
  }

  function Grown(f: Frag, base: nat, n: nat): Frag {
    Frag(if f.base == base + n then base else f.base, f.size + n)
  }

  function FreeTable(t: seq<Frag>, base: nat, n: nat): seq<Frag> {
    var i := FirstTouching(t, base, n);
    if i < |t| then t[i := Grown(t[i], base, n)] else t + [Frag(base, n)]
  }

  // ----- changing one entry

  lemma {:induction false} SumUpdate(t: seq<Frag>, i: nat, f: Frag)
    requires i < |t|
    ensures Sum(t[i := f]) == Sum(t) - t[i].size + f.size
  {
    if i == 0 {
      assert t[0 := f][1..] == t[1..];
    } else {
      SumUpdate(t[1..], i - 1, f);
      assert t[i := f][1..] == t[1..][i - 1 := f];
    }
  }

  lemma {:induction false} SumConcat(a: seq<Frag>, b: seq<Frag>)
    ensures Sum(a + b) == Sum(a) + Sum(b)
  {
    if a == [] {
      assert a + b == b;
    } else {
      SumConcat(a[1..], b);
      assert (a + b)[1..] == a[1..] + b;
    }
  }

  lemma {:induction false} SumDeleted(t: seq<Frag>, i: nat)
    requires i < |t|
    ensures Sum(Deleted(t, i)) == Sum(t) - t[i].size
  {
    var t' := Deleted(t, i);
    if i == 0 {
      assert t' == t[1..];
    } else {
      SumDeleted(t[1..], i - 1);
      assert t'[1..] == Deleted(t[1..], i - 1);
    }
  }

  /** `g` is some of the pages of `f`. */
  ghost predicate Within(g: Frag, f: Frag) {
    g.size == 0 || (f.base <= g.base && End(g) <= End(f))
  }

  lemma ValidUpdate(t: seq<Frag>, i: nat, g: Frag)
    requires Valid(t) && i < |t| && Proper(g)
    requires forall j :: 0 <= j < |t| && j != i ==> Apart(t[j], g)
    ensures Valid(t[i := g])
  {
  }

  lemma ValidDeleted(t: seq<Frag>, i: nat)
    requires Valid(t) && i < |t|
    ensures Valid(Deleted(t, i))
  {
    var t' := Deleted(t, i);
    forall k | 0 <= k < |t'|
      ensures t'[k] == t[if k < i then k else k + 1]
    {
    }
  }

  lemma CoveredOnce(t: seq<Frag>, i: nat, j: nat, x: nat)
    requires Disjoint(t) && i < |t| && j < |t| && i != j && Covers(t[j], x)
    ensures !Covers(t[i], x)
  {
    if i < j { assert Apart(t[i], t[j]); } else { assert Apart(t[j], t[i]); }
  }

  lemma FreeUpdate(t: seq<Frag>, i: nat, g: Frag, x: nat)
    requires Disjoint(t) && i < |t|
    ensures IsFree(t[i := g], x) <==> Covers(g, x) || (IsFree(t, x) && !Covers(t[i], x))
  {
    var t' := t[i := g];
    if IsFree(t', x) {
      var j :| 0 <= j < |t'| && Covers(t'[j], x);
      if j != i {
        assert Covers(t[j], x);
        CoveredOnce(t, i, j, x);
      }
    }
    if Covers(g, x) { assert Covers(t'[i], x); }
    if IsFree(t, x) && !Covers(t[i], x) {
      var j :| 0 <= j < |t| && Covers(t[j], x);
      assert Covers(t'[j], x);
    }
  }

  lemma FreeConcat(a: seq<Frag>, b: seq<Frag>, x: nat)
    ensures IsFree(a + b, x) <==> IsFree(a, x) || IsFree(b, x)
  {
    var t := a + b;
    if IsFree(a, x) {
      var j :| 0 <= j < |a| && Covers(a[j], x);
      assert t[j] == a[j];
    }
    if IsFree(b, x) {
      var j :| 0 <= j < |b| && Covers(b[j], x);
      assert t[|a| + j] == b[j];
    }
  }

  lemma FreeOne(f: Frag, x: nat)
    ensures IsFree([f], x) <==> Covers(f, x)
  {
    assert Covers(f, x) ==> Covers([f][0], x);
  }

  lemma FreeElsewhere(t: seq<Frag>, i: nat, x: nat)
    requires Disjoint(t) && i < |t| && (IsFree(t[..i], x) || IsFree(t[i + 1..], x))
    ensures !Covers(t[i], x)
  {
    if IsFree(t[..i], x) {
      var j :| 0 <= j < i && Covers(t[..i][j], x);
      CoveredOnce(t, i, j, x);
    } else {
      var j :| 0 <= j < |t[i + 1..]| && Covers(t[i + 1..][j], x);
      CoveredOnce(t, i, i + 1 + j, x);
    }
  }

  lemma FreeDeleted(t: seq<Frag>, i: nat, x: nat)
    requires Disjoint(t) && i < |t|
    ensures IsFree(Deleted(t, i), x) <==> IsFree(t, x) && !Covers(t[i], x)
  {
    var a, b := t[..i], t[i + 1..];
    FreeConcat(a, b, x);
    FreeConcat(a, [t[i]] + b, x);
    FreeConcat([t[i]], b, x);
    FreeOne(t[i], x);
    assert t == a + ([t[i]] + b);
    if IsFree(a, x) || IsFree(b, x) { FreeElsewhere(t, i, x); }
  }

  function InsertedAt(t: seq<Frag>, i: nat, g: Frag): seq<Frag>
    requires i <= |t|
  {
    t[..i] + [g] + t[i..]
  }

  lemma FreeInserted(t: seq<Frag>, i: nat, g: Frag, x: nat)
    requires i <= |t|
    ensures IsFree(InsertedAt(t, i, g), x) <==> IsFree(t, x) || Covers(g, x)
  {
    FreeConcat(t[..i] + [g], t[i..], x);
    FreeConcat(t[..i], [g], x);
    FreeConcat(t[..i], t[i..], x);
    FreeOne(g, x);
    assert t == t[..i] + t[i..];
  }

  lemma {:induction false} SumInserted(t: seq<Frag>, i: nat, g: Frag)
    requires i <= |t|
    ensures Sum(InsertedAt(t, i, g)) == Sum(t) + g.size
  {
    var t' := InsertedAt(t, i, g);
    if i == 0 {
      assert t'[1..] == t;
    } else {
      SumInserted(t[1..], i - 1, g);
      assert t'[1..] == InsertedAt(t[1..], i - 1, g);
    }
  }

  lemma ValidInserted(t: seq<Frag>, i: nat, g: Frag)
    requires Valid(t) && i <= |t| && Proper(g)
    requires forall j :: 0 <= j < |t| ==> Apart(t[j], g)
    ensures Valid(InsertedAt(t, i, g))
  {
    var t' := InsertedAt(t, i, g);
    forall k | 0 <= k < |t'|
      ensures t'[k] == if k < i then t[k] else if k == i then g else t[k - 1]
    {
    }
    assert Disjoint(t') by {
      forall a, b | 0 <= a < b < |t'|
        ensures Apart(t'[a], t'[b])
      {
        if a == i { assert Apart(t[b - 1], g); }
      }
    }
  }

  // ----- the three operations

  /** What an operation that takes pages promises: the taken range was free; exactly it is gone. */
  ghost predicate Takes(t: seq<Frag>, t': seq<Frag>, base: nat, n: nat) {
    && (forall x :: InRange(base, n, x) ==> IsFree(t, x))
    && (forall x :: IsFree(t', x) <==> IsFree(t, x) && !InRange(base, n, x))
  }

  lemma OthersApart(t: seq<Frag>, i: nat)
    requires Disjoint(t) && i < |t|
    ensures forall j :: 0 <= j < |t| && j != i ==> Apart(t[j], t[i])
  {
    forall j | 0 <= j < |t| && j != i
      ensures Apart(t[j], t[i])
    {
      if i < j { assert Apart(t[i], t[j]); }
    }
  }

  lemma Shrink(t: seq<Frag>, i: nat, g: Frag)
    requires Valid(t) && i < |t| && Proper(g) && Within(g, t[i])
    ensures Valid(t[i := g])
  {
    OthersApart(t, i);
    forall j | 0 <= j < |t| && j != i
      ensures Apart(t[j], g)
    {
      assert Apart(t[j], t[i]);
    }
    ValidUpdate(t, i, g);
  }

  lemma AllocValid(t: seq<Frag>, i: nat, n: nat)
    requires Valid(t) && i < |t| && n <= t[i].size
    ensures Valid(AllocAt(t, i, n))
  {
    assert Proper(t[i]);
    if t[i].size == n { ValidDeleted(t, i); } else { Shrink(t, i, Frag(t[i].base + n, t[i].size - n)); }
  }

  lemma AllocSum(t: seq<Frag>, i: nat, n: nat)
    requires i < |t| && n <= t[i].size
    ensures Sum(AllocAt(t, i, n)) == Sum(t) - n
  {
    if t[i].size == n { SumDeleted(t, i); } else { SumUpdate(t, i, Frag(t[i].base + n, t[i].size - n)); }
  }

  /** The pages handed out are the first of the chosen fragment. */
  lemma AllocTakes(t: seq<Frag>, i: nat, n: nat)
    requires Disjoint(t) && i < |t| && n <= t[i].size
    ensures Takes(t, AllocAt(t, i, n), t[i].base, n)
  {
    forall x
      ensures InRange(t[i].base, n, x) ==> IsFree(t, x)
      ensures IsFree(AllocAt(t, i, n), x) <==> IsFree(t, x) && !InRange(t[i].base, n, x)
    {
      AllocCut(t, i, n, x);
    }
  }

  lemma AllocCut(t: seq<Frag>, i: nat, n: nat, x: nat)
    requires Disjoint(t) && i < |t| && n <= t[i].size
    ensures InRange(t[i].base, n, x) ==> IsFree(t, x)
    ensures IsFree(AllocAt(t, i, n), x) <==> IsFree(t, x) && !InRange(t[i].base, n, x)
  {
    var f := t[i];
    if Covers(f, x) { assert IsFree(t, x); }
    if f.size == n {
      FreeDeleted(t, i, x);
    } else {
      FreeUpdate(t, i, Frag(f.base + n, f.size - n), x);
    }
  }

  lemma SlotArith(f: Frag)
    requires FitsSlot(f)
    ensures SlotBase(f) % SLOT_PAGES == 0
    ensures f.base == Lead(f).base && End(Lead(f)) == SlotBase(f) && Tail(f).base == SlotBase(f) + SLOT_PAGES
    ensures f.size == Lead(f).size + SLOT_PAGES + Tail(f).size && End(Tail(f)) == End(f)
  {
  }

  /** The table with a slot cut out of entry `i`, page by page. */
  lemma SlotCut(t: seq<Frag>, i: nat, x: nat)
    requires Disjoint(t) && i < |t| && FitsSlot(t[i])
    ensures var f := t[i];
            IsFree(SlotAt(t, i), x) <==>
            (IsFree(t, x) && !Covers(f, x)) || Covers(Tail(f), x) || (!Leaks(f) && Covers(Lead(f), x))
  {
    var f := t[i];
    var tail, lead := Tail(f), Lead(f);
    if SlotBase(f) == f.base {
      if tail.size == 0 { FreeDeleted(t, i, x); } else { FreeUpdate(t, i, tail, x); }
    } else {
      FreeUpdate(t, i, tail, x);
      if !Leaks(f) {
        assert SlotAt(t, i) == InsertedAt(t[i := tail], i, lead);
        FreeInserted(t[i := tail], i, lead, x);
      }
    }
  }

  lemma SlotValid(t: seq<Frag>, i: nat)
    requires Valid(t) && i < |t| && FitsSlot(t[i])
    ensures Valid(SlotAt(t, i))
  {
    var f, u := t[i], t[i := Tail(t[i])];
    SlotArith(f);
    assert Proper(f);
    Shrink(t, i, Tail(f));
    if SlotBase(f) == f.base {
      ValidDeleted(t, i);
    } else if !Leaks(f) {
      assert SlotAt(t, i) == InsertedAt(u, i, Lead(f));
      OthersApart(t, i);
      forall j | 0 <= j < |u|
        ensures Apart(u[j], Lead(f))
      {
        if j != i { assert Apart(t[j], t[i]); }
      }
      ValidInserted(u, i, Lead(f));
    }
  }

  lemma SlotSum(t: seq<Frag>, i: nat)
    requires i < |t| && FitsSlot(t[i])
    ensures Sum(SlotAt(t, i)) == Sum(t) - SLOT_PAGES - (if Leaks(t[i]) then Lead(t[i]).size else 0)
  {
    var f, u := t[i], t[i := Tail(t[i])];
    SlotArith(f);
    SumUpdate(t, i, Tail(f));
    if SlotBase(f) == f.base {
      SumDeleted(t, i);
    } else if !Leaks(f) {
      assert SlotAt(t, i) == InsertedAt(u, i, Lead(f));
      SumInserted(u, i, Lead(f));
    }
  }

  /** The first slot-aligned 2M of the chosen fragment. All its pages were free and are free no more;
      no page becomes free; other pages are lost only if the cut leaks. */
  lemma SlotTakes(t: seq<Frag>, i: nat)
    requires Valid(t) && i < |t| && FitsSlot(t[i])
    ensures SlotBase(t[i]) % SLOT_PAGES == 0
    ensures forall x :: InRange(SlotBase(t[i]), SLOT_PAGES, x) ==> IsFree(t, x)
    ensures forall x :: IsFree(SlotAt(t, i), x) <==>
              (IsFree(t, x) && !InRange(SlotBase(t[i]), SLOT_PAGES, x) && !(Leaks(t[i]) && Covers(Lead(t[i]), x)))
  {
    var f := t[i];
    SlotArith(f);
    forall x
      ensures InRange(SlotBase(f), SLOT_PAGES, x) ==> IsFree(t, x)
      ensures IsFree(SlotAt(t, i), x) <==>
        (IsFree(t, x) && !InRange(SlotBase(f), SLOT_PAGES, x) && !(Leaks(f) && Covers(Lead(f), x)))
    {
      SlotCut(t, i, x);
      if Covers(f, x) { assert Covers(t[i], x); }
    }
  }

  /** Allocating a slot takes exactly the slot's pages from the table if and only if the fragment it
      is cut from starts at a slot boundary or continues behind the slot. */
  lemma SlotConservesIff(t: seq<Frag>, i: nat)
    requires Valid(t) && i < |t| && FitsSlot(t[i])
    ensures var f := t[i];
            Takes(t, SlotAt(t, i), SlotBase(f), SLOT_PAGES) <==> f.base % SLOT_PAGES == 0 || End(f) != SlotBase(f) + SLOT_PAGES
  {
    var f := t[i];
    SlotTakes(t, i);
    SlotArith(f);
    if Leaks(f) {
      assert Covers(t[i], f.base) && IsFree(t, f.base) && Covers(Lead(f), f.base);
      assert !InRange(SlotBase(f), SLOT_PAGES, f.base);
    }
  }

  /** The 511 pages in front of the slot at page 512 are gone; an empty fragment is left. */
  lemma LeakExample(t: seq<Frag>)
    requires t == [Frag(1, 1023)]
    ensures Valid(t) && FirstSlot(t) == 0 && SlotAt(t, 0) == [Frag(1024, 0)]
    ensures forall x :: 1 <= x < 512 ==> IsFree(t, x) && !IsFree(SlotAt(t, 0), x)
  {
    assert FitsSlot(t[0]);
    SlotTakes(t, 0);
    forall x | 1 <= x < 512
      ensures IsFree(t, x) && !IsFree(SlotAt(t, 0), x)
    {
      assert Covers(t[0], x);
    }
  }

  lemma FreeApart(t: seq<Frag>, base: nat, n: nat)
    requires Disjoint(t) && forall x :: InRange(base, n, x) ==> !IsFree(t, x)
    ensures forall j :: 0 <= j < |t| ==> Apart(t[j], Frag(base, n))
  {
    forall j | 0 <= j < |t|
      ensures Apart(t[j], Frag(base, n))
    {
      if !Apart(t[j], Frag(base, n)) { Overlap(t, j, base, n); }
    }
  }

  lemma FreeValid(t: seq<Frag>, base: nat, n: nat)
    requires Valid(t) && Proper(Frag(base, n))
    requires forall x :: InRange(base, n, x) ==> !IsFree(t, x)
    ensures Valid(FreeTable(t, base, n))
  {
    var i := FirstTouching(t, base, n);
    FreeApart(t, base, n);
    if i < |t| {
      OthersApart(t, i);
      assert Proper(t[i]);
      ValidUpdate(t, i, Grown(t[i], base, n));
    } else {
      assert t + [Frag(base, n)] == InsertedAt(t, i, Frag(base, n));
      ValidInserted(t, i, Frag(base, n));
    }
  }

  lemma FreeSum(t: seq<Frag>, base: nat, n: nat)
    ensures Sum(FreeTable(t, base, n)) == Sum(t) + n
  {
    var i := FirstTouching(t, base, n);
    if i < |t| { SumUpdate(t, i, Grown(t[i], base, n)); } else { SumConcat(t, [Frag(base, n)]); }
  }

  /** Freeing adds exactly the given pages, merged into the first fragment they touch. */
  lemma FreeGives(t: seq<Frag>, base: nat, n: nat, x: nat)
    requires Disjoint(t) && forall y :: InRange(base, n, y) ==> !IsFree(t, y)
    ensures IsFree(FreeTable(t, base, n), x) <==> IsFree(t, x) || InRange(base, n, x)
  {
    var i := FirstTouching(t, base, n);
    if i < |t| {
      FreeUpdate(t, i, Grown(t[i], base, n), x);
      assert Covers(t[i], x) ==> IsFree(t, x);
    } else {
      FreeConcat(t, [Frag(base, n)], x);
      FreeOne(Frag(base, n), x);
    }
  }

  /** Two fragments that are not apart share a page. */
  lemma Overlap(t: seq<Frag>, j: nat, base: nat, n: nat)
    requires j < |t| && !Apart(t[j], Frag(base, n))
    ensures exists x :: InRange(base, n, x) && IsFree(t, x)
  {
    var x := if t[j].base > base then t[j].base else base;
    assert InRange(base, n, x) && Covers(t[j], x) && IsFree(t, x);
  }

  // ----- what stays in the table

  function Blank(f: Frag): nat {
    if f.size == 0 then 1 else 0
  }

  /** How many entries are empty. */
  function Empties(t: seq<Frag>): nat {
    if t == [] then 0 else Blank(t[0]) + Empties(t[1..])
  }

  lemma {:induction false} EmptiesConcat(a: seq<Frag>, b: seq<Frag>)
    ensures Empties(a + b) == Empties(a) + Empties(b)
  {
    if a == [] {
      assert a + b == b;
    } else {
      EmptiesConcat(a[1..], b);
      assert (a + b)[1..] == a[1..] + b;
    }
  }

  lemma EmptiesOne(f: Frag)
    ensures Empties([f]) == Blank(f)
  {
    assert [f][1..] == [];
  }

  /** Empty entries, when entry `i` is replaced by `u`. */
  lemma EmptiesSpliced(t: seq<Frag>, i: nat, u: seq<Frag>)
    requires i < |t|
    ensures Empties(t[..i] + u + t[i + 1..]) == Empties(t) - Blank(t[i]) + Empties(u)
  {
    EmptiesConcat(t[..i] + u, t[i + 1..]);
    EmptiesConcat(t[..i], u);
    EmptiesConcat(t[..i] + [t[i]], t[i + 1..]);
    EmptiesConcat(t[..i], [t[i]]);
    EmptiesOne(t[i]);
    assert t == t[..i] + [t[i]] + t[i + 1..];
  }

  /** Entry `i` becomes `u`, and all other entries keep their values and their order. */
  ghost predicate Spliced(t: seq<Frag>, t': seq<Frag>, i: nat, u: seq<Frag>) {
    i < |t| && t' == t[..i] + u + t[i + 1..]
  }

  /** Allocating changes one entry: its first pages are gone, and with the last of them the entry itself. No empty
      entry arises. */
  lemma AllocShape(t: seq<Frag>, i: nat, n: nat)
    requires i < |t| && 0 < n <= t[i].size
    ensures Spliced(t, AllocAt(t, i, n), i, if t[i].size == n then [] else [Frag(t[i].base + n, t[i].size - n)])
    ensures |AllocAt(t, i, n)| == |t| - if t[i].size == n then 1 else 0
    ensures Empties(AllocAt(t, i, n)) == Empties(t)
  {
    var u := if t[i].size == n then [] else [Frag(t[i].base + n, t[i].size - n)];
    assert AllocAt(t, i, n) == t[..i] + u + t[i + 1..];
    EmptiesSpliced(t, i, u);
    if t[i].size != n {
      EmptiesOne(u[0]);
    }
  }

  /** A slot changes one entry: what is left of the fragment before and behind the slot stays, and nothing else; except
      when the slot is cut from the end, which leaves an empty entry in place of the pages before it. */
  lemma SlotShape(t: seq<Frag>, i: nat)
    requires i < |t| && FitsSlot(t[i])
    ensures var f := t[i];
            var lead, tail := if SlotBase(f) == f.base then [] else [Lead(f)], if Tail(f).size == 0 then [] else [Tail(f)];
            Spliced(t, SlotAt(t, i), i, if Leaks(f) then [Tail(f)] else lead + tail)
    ensures Empties(SlotAt(t, i)) == Empties(t) + if Leaks(t[i]) then 1 else 0
    ensures |SlotAt(t, i)| <= |t| + 1 && (|SlotAt(t, i)| == |t| + 1 <==> SlotBase(t[i]) != t[i].base && !Leaks(t[i]))
  {
    hide Empties;
    var f := t[i];
    var lead, tail := if SlotBase(f) == f.base then [] else [Lead(f)], if Tail(f).size == 0 then [] else [Tail(f)];
    var u := if Leaks(f) then [Tail(f)] else lead + tail;
    SlotArith(f);
    SlotSpliced(t, i);
    hide SlotBase;
    hide Lead;
    hide Tail;
    hide SlotAt;
    EmptiesSpliced(t, i, u);
    EmptiesOne(Lead(f));
    EmptiesOne(Tail(f));
    EmptiesConcat(lead, tail);
    NoEmpties();
  }

  lemma NoEmpties()
    ensures Empties([]) == 0
  {
  }

  lemma SlotSpliced(t: seq<Frag>, i: nat)
    requires i < |t|
    ensures var f := t[i];
            var lead, tail := if SlotBase(f) == f.base then [] else [Lead(f)], if Tail(f).size == 0 then [] else [Tail(f)];
            Spliced(t, SlotAt(t, i), i, if Leaks(f) then [Tail(f)] else lead + tail)
  {
    hide SlotBase;
    hide Lead;
    hide Tail;
  }

  /** Freeing changes the first entry that the pages touch, or adds one at the end; an empty entry arises only from
      freeing no pages at all. */
  lemma FreeShape(t: seq<Frag>, base: nat, n: nat)
    ensures var i := FirstTouching(t, base, n);
            if i < |t| then Spliced(t, FreeTable(t, base, n), i, [Grown(t[i], base, n)]) && |FreeTable(t, base, n)| == |t|
            else FreeTable(t, base, n) == t + [Frag(base, n)]
    ensures n > 0 ==> Empties(FreeTable(t, base, n)) <= Empties(t)
    ensures Empties(FreeTable(t, base, n)) <= Empties(t) + 1
  {
    hide Empties;
    hide FirstTouching;
    var i := FirstTouching(t, base, n);
    if i < |t| {
      GrownInPlace(t, i, Grown(t[i], base, n));
      GrownSize(t[i], base, n);
      hide Grown;
      EmptiesSpliced(t, i, [Grown(t[i], base, n)]);
      EmptiesOne(Grown(t[i], base, n));
    } else {
      EmptiesConcat(t, [Frag(base, n)]);
      EmptiesOne(Frag(base, n));
    }
  }

  lemma GrownInPlace(t: seq<Frag>, i: nat, f: Frag)
    requires i < |t|
    ensures t[i := f] == t[..i] + [f] + t[i + 1..]
  {
  }

  lemma GrownSize(f: Frag, base: nat, n: nat)
    ensures Grown(f, base, n).size == f.size + n
  {
  }
}
