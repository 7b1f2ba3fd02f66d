/** Page tables as a whole: what writing entries and linking tables do to all translations, which
    pages become tables, and how a mapping request advances. */
module VmmMaps {
  import opened Options
  import opened VmmTree
  import PmmTable

  const PAGE := 4096
  const SLOT := 2097152

  /** The page tables: memory, and which table is at which place. */
  datatype PT = PT(mem: Memory, at: Tables)

  ghost predicate Ok(pt: PT, root: nat) {
    Tree(pt.mem, root, pt.at)
  }

  /** Where page `v` is. */
  ghost function View(pt: PT, root: nat, v: nat): Option<nat>
    requires Ok(pt, root)
  {
    Lookup(pt.mem, pt.at, v)
  }

  ghost predicate SlotLeaf(pt: PT, s: nat) {
    (2, s / 512) in pt.at && pt.at[(2, s / 512)] in pt.mem && |pt.mem[pt.at[(2, s / 512)]]| == 512
    && !Empty(pt.mem[pt.at[(2, s / 512)]][s % 512]) && pt.mem[pt.at[(2, s / 512)]][s % 512].flags.slot
  }

  /** `n` pages from `v` on are mapped to frames from `f` on; every other translation is as before,
      and elsewhere the 2M leaves are the same. */
  ghost predicate Maps(pt: PT, pt': PT, root: nat, v: nat, f: nat, n: nat)
    requires Ok(pt, root) && Ok(pt', root)
  {
    && (forall x: nat :: View(pt', root, x) == if v <= x < v + n then Some(f + x - v) else View(pt, root, x))
    && (forall s: nat :: SlotLeaf(pt', s) ==> SlotLeaf(pt, s) || v <= s * 512 < v + n)
    && (forall s: nat :: SlotLeaf(pt, s) ==> SlotLeaf(pt', s) || v <= s * 512 < v + n)
  }

  /** There is no 2M leaf that was not there. */
  ghost predicate NoNewLeaf(pt: PT, pt': PT) {
    forall s: nat :: SlotLeaf(pt', s) ==> SlotLeaf(pt, s)
  }

  lemma MapsThen(a: PT, b: PT, c: PT, root: nat, v: nat, f: nat, n: nat, m: nat)
    requires Ok(a, root) && Ok(b, root) && Ok(c, root)
    requires Maps(a, b, root, v, f, n) && Maps(b, c, root, v + n, f + n, m)
    ensures Maps(a, c, root, v, f, n + m)
  {
  }

  /** No 2M leaf overlaps the pages from `v` on. */
  ghost predicate Clear(pt: PT, v: nat, n: nat) {
    forall s: nat :: SlotLeaf(pt, s) ==> n == 0 || s * 512 + 512 <= v || v + n <= s * 512
  }

  lemma ClearAfter(a: PT, b: PT, root: nat, v: nat, f: nat, n: nat, m: nat)
    requires Ok(a, root) && Ok(b, root) && Maps(a, b, root, v, f, n) && Clear(a, v, n + m)
    requires (v + n) % 512 == 0 || m == 0
    ensures Clear(b, v + n, m)
  {
    forall s: nat | SlotLeaf(b, s)
      ensures m == 0 || s * 512 + 512 <= v + n || v + n + m <= s * 512
    {
      if m > 0 && !SlotLeaf(a, s) {
        assert v + n == (v + n) / 512 * 512;
      }
    }
  }

  // ----- sizes in bytes, rounded up

  function PagesUp(size: nat): nat {
    (size + PAGE - 1) / PAGE
  }

  function SlotsUp(size: nat): nat {
    (size + SLOT - 1) / SLOT
  }

  /** Pages that a request can reach at most. */
  function Cover(size: nat): nat {
    if size >= SLOT then SlotsUp(size) * 512 else PagesUp(size)
  }

  lemma CoverPositive(size: nat)
    ensures size > 0 <==> Cover(size) > 0
  {
  }

  // ----- single entries, on page tables as a whole

  function Put(pt: PT, page: nat, i: nat, e: Entry): PT {
    pt.(mem := Write(pt.mem, page, i, e))
  }

  lemma PutLeaf(pt: PT, root: nat, k: Place, i: nat, e: Entry)
    requires Ok(pt, root) && k in pt.at && k.0 == 1 && i < 512 && e.flags.present
    ensures Ok(Put(pt, pt.at[k], i, e), root)
    ensures Maps(pt, Put(pt, pt.at[k], i, e), root, k.1 * 512 + i, e.frame, 1) && NoNewLeaf(pt, Put(pt, pt.at[k], i, e))
  {
    var pt' := Put(pt, pt.at[k], i, e);
    LeafTree(pt.mem, root, pt.at, k, i, e);
    forall x: nat
      ensures View(pt', root, x) ==
              if k.1 * 512 + i <= x < k.1 * 512 + i + 1 then Some(e.frame + x - (k.1 * 512 + i)) else View(pt, root, x)
    {
      LeafLookup(pt.mem, root, pt.at, k, i, e, x);
    }
    forall s: nat
      ensures SlotLeaf(pt', s) <==> SlotLeaf(pt, s)
    {
      if SlotLeaf(pt, s) || SlotLeaf(pt', s) {
        WriteElsewhere(pt.mem, root, pt.at, k, i, e, (2, s / 512));
      }
    }
  }

  ghost function PutSlot(pt: PT, k: Place, i: nat, e: Entry): PT
    requires k in pt.at && k.0 >= 1
  {
    PT(Write(pt.mem, pt.at[k], i, e), pt.at - {Child(k, i)})
  }

  lemma PutSlotMaps(pt: PT, root: nat, k: Place, i: nat, e: Entry)
    requires Ok(pt, root) && k in pt.at && k.0 == 2 && i < 512
    requires e.flags.present && e.flags.slot && e.frame % 512 == 0 && !Empty(e)
    ensures Ok(PutSlot(pt, k, i, e), root)
    ensures Maps(pt, PutSlot(pt, k, i, e), root, (k.1 * 512 + i) * 512, e.frame, 512)
    ensures SlotLeaf(PutSlot(pt, k, i, e), k.1 * 512 + i)
  {
    hide Ok;
    hide View;
    hide SlotLeaf;
    hide PutSlot;
    var pt', v := PutSlot(pt, k, i, e), (k.1 * 512 + i) * 512;
    PutSlotAt(pt, root, k, i, e, 0);
    forall x: nat
      ensures View(pt', root, x) == if v <= x < v + 512 then Some(e.frame + x - v) else View(pt, root, x)
    {
      PutSlotAt(pt, root, k, i, e, x);
    }
    forall s: nat
      ensures SlotLeaf(pt', s) <==> SlotLeaf(pt, s) || s == k.1 * 512 + i
    {
      PutSlotLeaf(pt, root, k, i, e, s);
    }
  }

  lemma PutSlotAt(pt: PT, root: nat, k: Place, i: nat, e: Entry, x: nat)
    requires Ok(pt, root) && k in pt.at && k.0 == 2 && i < 512
    requires e.flags.present && e.flags.slot && e.frame % 512 == 0 && !Empty(e)
    ensures Ok(PutSlot(pt, k, i, e), root)
    ensures var pt', v := PutSlot(pt, k, i, e), (k.1 * 512 + i) * 512;
            View(pt', root, x) == if v <= x < v + 512 then Some(e.frame + x - v) else View(pt, root, x)
  {
    hide Tree;
    hide Lookup;
    SlotLookup(pt.mem, root, pt.at, k, i, e, x);
    InSlot(x, k.1 * 512 + i);
  }

  lemma InSlot(x: nat, s: nat)
    ensures x / 512 == s <==> s * 512 <= x < s * 512 + 512
    ensures x / 512 == s ==> x % 512 == x - s * 512
  {
  }

  lemma PutSlotLeaf(pt: PT, root: nat, k: Place, i: nat, e: Entry, s: nat)
    requires Ok(pt, root) && k in pt.at && k.0 == 2 && i < 512 && e.flags.slot && !Empty(e)
    ensures SlotLeaf(PutSlot(pt, k, i, e), s) <==> SlotLeaf(pt, s) || s == k.1 * 512 + i
  {
    assert PlaceOk(pt.mem, pt.at, k);
    if (2, s / 512) != k && (2, s / 512) in pt.at {
      WriteElsewhere(pt.mem, root, pt.at, k, i, e, (2, s / 512));
    }
  }

  ghost function PutTable(pt: PT, k: Place, i: nat, p: nat, flags: Flags): PT
    requires k in pt.at && k.0 >= 1
  {
    PT(Link(pt.mem, pt.at[k], i, p, flags), pt.at[Child(k, i) := p])
  }

  lemma PutTableMaps(pt: PT, root: nat, k: Place, i: nat, p: nat, flags: Flags)
    requires Ok(pt, root) && k in pt.at && k.0 >= 2 && i < 512
    requires pt.at[k] in pt.mem && |pt.mem[pt.at[k]]| == 512 && Empty(pt.mem[pt.at[k]][i])
    requires p !in pt.at.Values && p != 0 && flags.present && !flags.slot
    ensures Ok(PutTable(pt, k, i, p, flags), root)
    ensures Maps(pt, PutTable(pt, k, i, p, flags), root, 0, 0, 0)
  {
    var pt' := PutTable(pt, k, i, p, flags);
    LinkTree(pt.mem, root, pt.at, k, i, p, flags);
    forall x: nat
      ensures View(pt', root, x) == View(pt, root, x)
    {
      LinkLookup(pt.mem, root, pt.at, k, i, p, flags, x);
    }
    forall s: nat
      ensures SlotLeaf(pt', s) <==> SlotLeaf(pt, s)
    {
      PutTableLeaf(pt, root, k, i, p, flags, s);
    }
  }

  lemma PutTableLeaf(pt: PT, root: nat, k: Place, i: nat, p: nat, flags: Flags, s: nat)
    requires Ok(pt, root) && k in pt.at && k.0 >= 2 && i < 512
    requires pt.at[k] in pt.mem && |pt.mem[pt.at[k]]| == 512 && Empty(pt.mem[pt.at[k]][i])
    requires p !in pt.at.Values && p != 0 && flags.present && !flags.slot
    ensures SlotLeaf(PutTable(pt, k, i, p, flags), s) <==> SlotLeaf(pt, s)
  {
    assert EntryOk(pt.mem, pt.at, k, i);
    if SlotLeaf(pt, s) || SlotLeaf(PutTable(pt, k, i, p, flags), s) {
      LinkPlace(pt.mem, root, pt.at, k, i, p, flags, (2, s / 512));
      assert pt.at[k] in pt.at.Values;
    }
  }

  // ----- tables and free pages

  /** No table page is free; page 0, which stands for "no table", is not either. */
  ghost predicate Held(pt: PT, t: seq<PmmTable.Frag>) {
    !PmmTable.IsFree(t, 0) && forall k <- pt.at :: !PmmTable.IsFree(t, pt.at[k])
  }

  /** Free pages only become fewer, and pages that became tables were free before and are not now. */
  ghost predicate Grew(pt: PT, t: seq<PmmTable.Frag>, pt': PT, t': seq<PmmTable.Frag>) {
    && (forall x: nat :: PmmTable.IsFree(t', x) ==> PmmTable.IsFree(t, x))
    && (forall k <- pt'.at :: pt'.at[k] in pt.at.Values
                              || (PmmTable.IsFree(t, pt'.at[k]) && !PmmTable.IsFree(t', pt'.at[k])))
  }

  lemma GrewThen(a: PT, ta: seq<PmmTable.Frag>, b: PT, tb: seq<PmmTable.Frag>, c: PT, tc: seq<PmmTable.Frag>)
    requires Grew(a, ta, b, tb) && Grew(b, tb, c, tc)
    ensures Grew(a, ta, c, tc)
  {
    forall k <- c.at
      ensures c.at[k] in a.at.Values || (PmmTable.IsFree(ta, c.at[k]) && !PmmTable.IsFree(tc, c.at[k]))
    {
      if c.at[k] in b.at.Values {
        var j :| j in b.at && b.at[j] == c.at[k];
      }
    }
  }

  lemma NextUnit(addr: nat, slot: bool)
    ensures (addr + UnitPages(slot) * PAGE) / PAGE == addr / PAGE + UnitPages(slot)
    ensures slot && Whole(addr / PAGE) ==> Whole((addr + UnitPages(slot) * PAGE) / PAGE)
  {
  }

  lemma UnitSplit(n: nat, u: nat)
    requires n > 0
    ensures n * u == u + (n - 1) * u
  {
  }

  lemma {:induction false} UnitFits(v: nat, i: nat, count: nat, u: nat)
    requires i < count && v + count * u <= VPAGES
    ensures v + i * u + u <= VPAGES
    decreases count - i
  {
    if i + 1 < count { UnitFits(v, i, count - 1, u); }
  }

  lemma RangeNone(m: set<nat>, v: nat)
    ensures m + Range(v, 0) == m
  {
  }

  lemma RangeMore(m: set<nat>, v: nat, n: nat, u: nat)
    ensures m + Range(v, n) + Range(v + n, u) == m + Range(v, n + u)
  {
    var a, b, c := Range(v, n), Range(v + n, u), Range(v, n + u);
    forall x | x in c
      ensures x in a || x in b
    {
      assert Within(v, n, x) || Within(v + n, u, x);
    }
    forall x | x in a || x in b
      ensures x in c
    {
      assert Within(v, n + u, x);
    }
    assert a + b == c;
  }

  lemma OutsideNone(a: PT, t: seq<PmmTable.Frag>, root: nat, v: nat)
    requires Sound(a, t, root)
    ensures SameOutside(a, a, root, v, 0)
  {
  }

  lemma OutsideOk(a: PT, b: PT, root: nat, v: nat, n: nat)
    requires SameOutside(a, b, root, v, n)
    ensures Ok(a, root) && Ok(b, root)
  {
  }

  lemma OutsideThen(a: PT, b: PT, c: PT, root: nat, v: nat, n: nat, u: nat)
    requires SameOutside(a, b, root, v, n) && SameOutside(b, c, root, v + n, u)
    ensures SameOutside(a, c, root, v, n + u)
  {
    hide View;
    hide Ok;
  }

  lemma UnmappedFirst(a: PT, root: nat, v: nat, n: nat, u: nat)
    requires Unmapped(a, root, v, n + u)
    ensures Unmapped(a, root, v, n)
  {
    hide View;
    hide Ok;
  }

  lemma UnmappedRest(a: PT, b: PT, root: nat, v: nat, n: nat, u: nat)
    requires Unmapped(a, root, v, n + u) && SameOutside(a, b, root, v, n)
    ensures Unmapped(b, root, v + n, u)
  {
    hide View;
    hide Ok;
  }

  function UnitPages(slot: bool): nat {
    if slot then 512 else 1
  }

  lemma UnitCover(slot: bool)
    ensures Cover(UnitPages(slot) * PAGE) == UnitPages(slot)
    ensures PagesUp(UnitPages(slot) * PAGE) == UnitPages(slot)
    ensures UnitPages(slot) * PAGE >= SLOT ==> slot && SlotsUp(UnitPages(slot) * PAGE) == 1
  {
  }

  lemma PageNumber(p: nat)
    ensures p * PAGE / PAGE == p
  {
  }

  /** The pages from `p` on were free and are not any more; no page became free. */
  ghost predicate Granted(t: seq<PmmTable.Frag>, t': seq<PmmTable.Frag>, p: nat, n: nat) {
    && (forall x: nat :: p <= x < p + n ==> PmmTable.IsFree(t, x) && !PmmTable.IsFree(t', x))
    && (forall x: nat :: PmmTable.IsFree(t', x) ==> PmmTable.IsFree(t, x))
  }

  lemma SlotGranted(t: seq<PmmTable.Frag>, i: nat)
    requires PmmTable.Valid(t) && i < |t| && PmmTable.FitsSlot(t[i])
    ensures Granted(t, PmmTable.SlotAt(t, i), PmmTable.SlotBase(t[i]), 512)
  {
    PmmTable.SlotTakes(t, i);
    forall x: nat | PmmTable.SlotBase(t[i]) <= x < PmmTable.SlotBase(t[i]) + 512
      ensures PmmTable.InRange(PmmTable.SlotBase(t[i]), 512, x)
    {
    }
  }

  predicate Within(v: nat, n: nat, x: nat) {
    v <= x < v + n
  }

  ghost function Range(v: nat, n: nat): set<nat> {
    set x | v <= x < v + n && Within(v, n, x)
  }

  ghost predicate PrivatePage(pt: PT, t: seq<PmmTable.Frag>, root: nat, v: nat)
    requires Ok(pt, root)
  {
    var r := View(pt, root, v);
    r.Some? && !PmmTable.IsFree(t, r.value) && r.value !in pt.at.Values
  }

  /** The pages in `m` are mapped, to different frames, none of which is free or holds a table. */
  ghost predicate Private(pt: PT, t: seq<PmmTable.Frag>, root: nat, m: set<nat>) {
    && Ok(pt, root)
    && (forall v <- m :: PrivatePage(pt, t, root, v))
    && (forall v, w :: v in m && w in m && v != w ==> View(pt, root, v) != View(pt, root, w))
  }

  ghost predicate Unmapped(pt: PT, root: nat, v: nat, n: nat) {
    Ok(pt, root) && forall x: nat :: v <= x < v + n ==> View(pt, root, x) == None
  }

  ghost predicate SameOutside(pt: PT, pt': PT, root: nat, v: nat, n: nat) {
    && Ok(pt, root) && Ok(pt', root)
    && forall x: nat :: !(v <= x < v + n) ==> View(pt', root, x) == View(pt, root, x)
  }

  lemma OutsideAfter(a: PT, ta: seq<PmmTable.Frag>, b: PT, tb: seq<PmmTable.Frag>, root: nat, v: nat, f: nat, n: nat)
    requires Did(a, ta, b, tb, root, v, f, n)
    ensures SameOutside(a, b, root, v, n)
  {
    hide View;
    hide Ok;
  }

  /** Where nothing is mapped there is no 2M leaf. */
  lemma UnmappedClear(pt: PT, root: nat, v: nat, n: nat)
    requires Unmapped(pt, root, v, n)
    ensures Clear(pt, v, n)
  {
    forall s: nat | SlotLeaf(pt, s)
      ensures n == 0 || s * 512 + 512 <= v || v + n <= s * 512
    {
      var x := if v <= s * 512 then s * 512 else v;
      LeafMapped(pt, root, s, x);
    }
  }

  lemma LeafMapped(pt: PT, root: nat, s: nat, x: nat)
    requires Ok(pt, root) && SlotLeaf(pt, s)
    ensures s * 512 <= x < s * 512 + 512 ==> View(pt, root, x) != None
  {
    if s * 512 <= x < s * 512 + 512 {
      assert x / 512 == s && s / 512 == x / 0x4_0000;
      assert EntryOk(pt.mem, pt.at, (2, s / 512), s % 512);
      assert Child((2, s / 512), s % 512) == (1, x / 512);
    }
  }

  /** Frames that were free before the call are neither frames of other pages nor tables after it. */
  lemma PrivateAfter(a: PT, t: seq<PmmTable.Frag>, t1: seq<PmmTable.Frag>, b: PT, t2: seq<PmmTable.Frag>,
                     root: nat, m: set<nat>, v: nat, p: nat, n: nat)
    requires Private(a, t, root, m) && Held(a, t) && Granted(t, t1, p, n)
    requires Did(a, t1, b, t2, root, v, p, n) && Unmapped(a, root, v, n)
    ensures Private(b, t2, root, m + Range(v, n))
  {
    hide View;
    hide Ok;
    forall x | x in m + Range(v, n)
      ensures View(b, root, x) == (if Within(v, n, x) then Some(p + x - v) else View(a, root, x))
      ensures !Within(v, n, x) ==> x in m
      ensures Within(v, n, x) ==> x !in m
    {
      if x in m { assert PrivatePage(a, t, root, x); }
    }
    forall x | x in m + Range(v, n)
      ensures PrivatePage(b, t2, root, x)
    {
      if x in m { assert PrivatePage(a, t, root, x); }
      NotATable(a, t, t1, b, t2, View(b, root, x).value, p, n);
    }
    forall x, y | x in m + Range(v, n) && y in m + Range(v, n) && x != y
      ensures View(b, root, x) != View(b, root, y)
    {
      if x in m { assert PrivatePage(a, t, root, x); }
      if y in m { assert PrivatePage(a, t, root, y); }
    }
  }

  lemma NotATable(a: PT, t: seq<PmmTable.Frag>, t1: seq<PmmTable.Frag>, b: PT, t2: seq<PmmTable.Frag>, f: nat, p: nat, n: nat)
    requires Held(a, t) && Granted(t, t1, p, n) && Grew(a, t1, b, t2)
    requires Within(p, n, f) || (!PmmTable.IsFree(t, f) && f !in a.at.Values)
    ensures !PmmTable.IsFree(t2, f) && f !in b.at.Values
  {
    forall k <- b.at
      ensures b.at[k] != f
    {
      if b.at[k] in a.at.Values {
        var j :| j in a.at && a.at[j] == b.at[k];
      }
    }
  }

  /** The processor's view: `n` pages from `v` on go to the frames from `f` on, all others as before. */
  ghost predicate Translates(mem: Memory, mem': Memory, root: nat, v: nat, f: nat, n: nat) {
    forall x: nat :: x < VPAGES ==>
      Walk(mem', root, 4, x) == if v <= x < v + n then Some(f + x - v) else Walk(mem, root, 4, x)
  }

  lemma DidTranslates(a: PT, ta: seq<PmmTable.Frag>, b: PT, tb: seq<PmmTable.Frag>, root: nat, v: nat, f: nat, n: nat)
    requires Did(a, ta, b, tb, root, v, f, n)
    ensures Translates(a.mem, b.mem, root, v, f, n)
  {
    hide Walk;
    hide Lookup;
    forall x: nat | x < VPAGES
      ensures Walk(b.mem, root, 4, x) == if v <= x < v + n then Some(f + x - v) else Walk(a.mem, root, 4, x)
    {
      WalkIsLookup(a.mem, root, a.at, x);
      WalkIsLookup(b.mem, root, b.at, x);
      assert View(b, root, x) == if v <= x < v + n then Some(f + x - v) else View(a, root, x);
    }
  }

  predicate Whole(k: nat) {
    k % 512 == 0
  }

  lemma WholeMod(k: nat)
    ensures Whole(0) && (Whole(k) ==> k % 512 == 0)
  {
  }

  lemma WholeSum(a: nat, b: nat)
    ensures Whole(a) && Whole(b) ==> Whole(a + b)
  {
  }

  /** What the access argument becomes: a default for none, and no-execute for writable pages. */
  function Prepared(access: Flags): Flags {
    var a := if access == NOFLAGS then USER_RW else access;
    if a.write then a.(nx := true) else a
  }

  const USER_RW := Flags(true, true, true, false, false, 0)

  /** Present, and without the page size bit, as all callers' access arguments are. */
  predicate Usable(access: Flags) {
    access == NOFLAGS || (access.present && !access.slot)
  }

  lemma DidNothing(a: PT, t: seq<PmmTable.Frag>, root: nat, v: nat, f: nat)
    requires Sound(a, t, root)
    ensures Did(a, t, a, t, root, v, f, 0)
  {
    MapsNone(a, root, v, f);
  }

  lemma DidOk(a: PT, ta: seq<PmmTable.Frag>, b: PT, tb: seq<PmmTable.Frag>, root: nat, v: nat, f: nat, n: nat)
    requires Did(a, ta, b, tb, root, v, f, n)
    ensures Ok(a, root) && Ok(b, root)
  {
  }

  lemma DidThen(a: PT, ta: seq<PmmTable.Frag>, b: PT, tb: seq<PmmTable.Frag>, c: PT, tc: seq<PmmTable.Frag>, root: nat,
                v: nat, f: nat, n: nat, m: nat)
    requires Did(a, ta, b, tb, root, v, f, n) && Did(b, tb, c, tc, root, v + n, f + n, m)
    ensures Did(a, ta, c, tc, root, v, f, n + m)
  {
    hide Ok;
    hide Maps;
    hide Grew;
    MapsThen(a, b, c, root, v, f, n, m);
    GrewThen(a, ta, b, tb, c, tc);
  }

  /** `n` pages are done and `left` bytes remain of a request for `size` bytes. */
  ghost predicate Remaining(size: nat, n: nat, left: nat, big: bool) {
    if big then size >= SLOT && n * PAGE + left == SlotsUp(size) * SLOT
    else (n == 0 && left == size) || (n > 0 && n * PAGE + left == PagesUp(size) * PAGE)
  }

  lemma RemainingStart(size: nat)
    ensures Remaining(size, 0, size, false)
  {
  }

  lemma RemainingEnd(size: nat, n: nat, big: bool)
    requires Remaining(size, n, 0, big) && size > 0
    ensures n == (if big then SlotsUp(size) * 512 else PagesUp(size)) && (big ==> size >= SLOT)
  {
  }

  lemma PagesUpWhole(k: nat)
    ensures PagesUp(k * PAGE) == k
  {
  }

  lemma SlotsUpIs(x: nat, k: nat)
    requires x <= k * SLOT < x + SLOT
    ensures SlotsUp(x) == k
  {
  }

  lemma SlotsUpBounds(x: nat)
    ensures x <= SlotsUp(x) * SLOT < x + SLOT
  {
  }

  /** Rounding up to pages first changes nothing about the slots. */
  lemma SlotsUpPages(size: nat, q: nat)
    requires q * SLOT <= PagesUp(size) * PAGE
    ensures SlotsUp(PagesUp(size) * PAGE - q * SLOT) == SlotsUp(size) - q
  {
    var p, k := PagesUp(size), SlotsUp(size);
    SlotsUpBounds(size);
    assert size <= p * PAGE < size + PAGE;
    assert p <= k * 512;
    SlotsUpIs(p * PAGE - q * SLOT, k - q);
  }

  lemma AdvanceRemaining(size: nat, n: nat, left: nat, big: bool, i: nat, m: nat, left': nat, again: bool, big': bool)
    requires Remaining(size, n, left, big) && Advance(left, i, m, left', again, big') && size > 0
    requires left >= SLOT ==> Whole(n)
    ensures Remaining(size, n + m, left', big || big')
  {
    if left == 0 {
      assert m == 0;
    } else if n == 0 && !big {
    } else {
      WholeLeft(size, n, left, big);
      if left >= SLOT {
        if !big {
          SlotsUpPages(size, n / 512);
        } else {
          SlotsUpWhole(SlotsUp(size) - n / 512);
        }
      }
    }
  }

  lemma WholeLeft(size: nat, n: nat, left: nat, big: bool)
    requires Remaining(size, n, left, big) && (n > 0 || big)
    ensures PagesUp(left) * PAGE == left
  {
    if !big {
      PagesUpWhole(PagesUp(size) - n);
    } else {
      PagesUpWhole(SlotsUp(size) * 512 - n);
    }
  }

  lemma SlotsUpWhole(k: nat)
    ensures SlotsUp(k * SLOT) == k
  {
  }

  lemma AdvanceCover(left: nat, i: nat, m: nat, left': nat, again: bool, big: bool)
    requires Advance(left, i, m, left', again, big)
    requires left >= SLOT ==> i == 0
    ensures m + Cover(left') <= Cover(left)
    ensures left' == 0 ==> Cover(left') == 0
    ensures again ==> left' < left && Whole(i + m)
    ensures left' >= SLOT ==> left >= SLOT && Whole(m)
    ensures !again ==> left' == 0
  {
  }

  lemma ClearLess(pt: PT, v: nat, c: nat, m: nat)
    requires Clear(pt, v, c) && m <= c
    ensures Clear(pt, v, m)
  {
    hide SlotLeaf;
  }

  lemma WholeEnd(v: nat, n: nat)
    ensures Whole(v % 512 + n) <==> (v + n) % 512 == 0
  {
    assert v + n == v / 512 * 512 + (v % 512 + n);
    Mod512(v / 512, v % 512 + n);
  }

  lemma ClearRest(a: PT, ta: seq<PmmTable.Frag>, b: PT, tb: seq<PmmTable.Frag>, root: nat,
                  v: nat, f: nat, n: nat, c: nat, m: nat)
    requires Did(a, ta, b, tb, root, v, f, n) && Clear(a, v, c) && n + m <= c
    requires Whole(v % 512 + n) || m == 0
    ensures Clear(b, v + n, m)
  {
    hide Ok;
    hide Maps;
    hide SlotLeaf;
    ClearLess(a, v, c, n + m);
    hide Clear;
    WholeEnd(v, n);
    hide Whole;
    ClearAfter(a, b, root, v, f, n, m);
  }

  lemma SlotPlace(v: nat)
    requires v < VPAGES && v % 512 == 0
    ensures (v / 0x4_0000 * 512 + Index(2, v)) * 512 == v
  {
    var s := v / 512;
    assert s / 512 == v / 0x4_0000;
  }

  lemma PagePlace(v: nat, w: nat)
    requires w == v % VPAGES
    ensures w / 512 * 512 + Index(1, w) == w && Index(1, w) == v % 512
  {
    assert v == v / VPAGES * 0x800_0000 * 512 + w;
    Mod512(v / VPAGES * 0x800_0000, w);
  }

  lemma Mod512(a: nat, w: nat)
    ensures (a * 512 + w) % 512 == w % 512
  {
  }

  lemma PageAdvance(size: nat, i: nat, n: nat, size': nat, again: bool)
    requires i < 512 && n <= 512 - i && size' == PagesUp(size) * PAGE - n * PAGE
    requires (again <==> size > 0 && n == 512 - i) && (!again ==> size' == 0)
    ensures Advance(size, i, n, size', again, false)
  {
  }

  /** `pt'` maps what was asked for and took only free pages for tables. */
  ghost predicate Did(pt: PT, t: seq<PmmTable.Frag>, pt': PT, t': seq<PmmTable.Frag>, root: nat, v: nat, f: nat, n: nat) {
    Ok(pt, root) && Ok(pt', root) && Maps(pt, pt', root, v, f, n) && Grew(pt, t, pt', t')
  }

  /** How a pass that maps `n` pages, starting `i` pages into a 2M slot, advances a request; `big` if it wrote 2M
      entries. */
  ghost predicate Advance(size: nat, i: nat, n: nat, size': nat, again: bool, big: bool) {
    && (if big then size >= SLOT && n % 512 == 0 && size' == SlotsUp(size) * SLOT - n * PAGE
        else size' == PagesUp(size) * PAGE - n * PAGE)
    && (size > 0 ==> n > 0)
    && (again ==> size > 0 && (i + n) % 512 == 0)
    && (!again ==> size' == 0)
  }

  lemma SlotAdvance(size: nat, n: nat, size': nat, again: bool)
    requires size >= SLOT && n % 512 == 0 && n > 0 && size' == SlotsUp(size) * SLOT - n / 512 * SLOT && (!again ==> size' == 0)
    ensures Advance(size, 0, n, size', again, true)
  {
  }

  lemma NoLeafHere(a: PT, ta: seq<PmmTable.Frag>, b: PT, tb: seq<PmmTable.Frag>, root: nat, v: nat, n: nat)
    requires Extends(a, ta, b, tb, root) && Clear(a, v, n) && n > 0 && v < VPAGES
    requires (2, v / 0x4_0000) in b.at && b.at[(2, v / 0x4_0000)] in b.mem && |b.mem[b.at[(2, v / 0x4_0000)]]| == 512
    requires !Empty(b.mem[b.at[(2, v / 0x4_0000)]][Index(2, v)])
    ensures !b.mem[b.at[(2, v / 0x4_0000)]][Index(2, v)].flags.slot
  {
    var s := v / 512;
    assert s / 512 == v / 0x4_0000 && s % 512 == Index(2, v) && s * 512 <= v < s * 512 + 512;
    assert !SlotLeaf(a, s);
    assert !SlotLeaf(b, s);
  }

  lemma DidPages(a: PT, ta: seq<PmmTable.Frag>, b: PT, tb: seq<PmmTable.Frag>, root: nat,
                 k: Place, i: nat, v: nat, f: nat, n: nat, flags: Flags, page: nat)
    requires Extends(a, ta, b, tb, root) && Sound(b, tb, root) && flags.present && i + n <= 512
    requires n > 0 ==> k in b.at && b.at[k] == page && k.0 == 1 && k.1 * 512 + i == v
    ensures var c := b.(mem := Filled(b.mem, page, i, f, n, flags));
            Did(a, ta, c, tb, root, v, f, n) && Sound(c, tb, root) && NoNewLeaf(a, c)
  {
    hide Ok;
    hide Maps;
    hide NoNewLeaf;
    ExtendsLeaves(a, ta, b, tb, root);
    MapsAnywhere(a, b, root, v, f);
    if n > 0 {
      FilledMaps(b, root, k, i, f, n, flags);
      NoNewThen(a, b, FilledPT(b, k, i, f, n, flags));
      MapsThen(a, b, FilledPT(b, k, i, f, n, flags), root, v, f, 0, n);
    }
  }

  lemma MapsAnywhere(a: PT, b: PT, root: nat, v: nat, f: nat)
    requires Ok(a, root) && Ok(b, root) && Maps(a, b, root, 0, 0, 0)
    ensures Maps(a, b, root, v, f, 0)
  {
  }

  lemma DidSlots(a: PT, ta: seq<PmmTable.Frag>, b: PT, tb: seq<PmmTable.Frag>, root: nat,
                 k: Place, i: nat, v: nat, f: nat, n: nat, flags: Flags)
    requires Extends(a, ta, b, tb, root) && Sound(b, tb, root) && flags.present && i + n <= 512
    requires k in b.at && k.0 == 2 && (k.1 * 512 + i) * 512 == v && f % 512 == 0 && f >= 512
    ensures var c := SlotFilled(b, k, i, f, n, flags);
            Did(a, ta, c, tb, root, v, f, n * 512) && Sound(c, tb, root) && (n > 0 ==> Big(c, v, n * 512))
  {
    hide Ok;
    hide Maps;
    SlotFilledMaps(b, root, k, i, f, n, flags);
    SlotFilledTables(b, k, i, f, n, flags);
    MapsAnywhere(a, b, root, v, f);
    MapsThen(a, b, SlotFilled(b, k, i, f, n, flags), root, v, f, 0, n * 512);
    hide SlotLeaf;
    var s := k.1 * 512 + i + n - 1;
    assert n > 0 ==> v <= s * 512 < v + n * 512;
  }

  lemma NoNewThen(a: PT, b: PT, c: PT)
    requires NoNewLeaf(a, b) && NoNewLeaf(b, c)
    ensures NoNewLeaf(a, c)
  {
    hide SlotLeaf;
  }

  lemma ExtendsLeaves(a: PT, ta: seq<PmmTable.Frag>, b: PT, tb: seq<PmmTable.Frag>, root: nat)
    requires Extends(a, ta, b, tb, root)
    ensures NoNewLeaf(a, b)
  {
    hide SlotLeaf;
  }

  /** Some of the `n` pages from `v` on are in a 2M leaf. */
  ghost predicate Big(pt: PT, v: nat, n: nat) {
    exists s: nat :: SlotLeaf(pt, s) && v <= s * 512 < v + n
  }

  /** A pass that only fills page tables. */
  lemma NotBig(a: PT, b: PT, v: nat, n: nat, c: nat)
    requires NoNewLeaf(a, b) && Clear(a, v, c) && n <= c
    ensures !Big(b, v, n)
  {
    hide SlotLeaf;
  }

  lemma PagesNotBig(a: PT, b: PT, v: nat, n: nat, size: nat)
    requires NoNewLeaf(a, b) && (n > 0 ==> Clear(a, v, Cover(size)) && n <= PagesUp(size))
    ensures !Big(b, v, n)
  {
    hide SlotLeaf;
    if n > 0 {
      CoverPages(size);
      NotBig(a, b, v, n, Cover(size));
    }
  }

  lemma CoverPages(size: nat)
    ensures PagesUp(size) <= Cover(size)
  {
  }

  lemma NoneBig(pt: PT, v: nat)
    ensures !Big(pt, v, 0)
  {
  }

  /** Leaves that are there stay there. */
  lemma BigThen(b: PT, tb: seq<PmmTable.Frag>, c: PT, tc: seq<PmmTable.Frag>, root: nat, v: nat, f: nat, n: nat, m: nat)
    requires Did(b, tb, c, tc, root, v + n, f, m)
    ensures Big(c, v, n + m) <==> Big(b, v, n) || Big(c, v + n, m)
  {
    hide SlotLeaf;
    hide View;
    hide Ok;
  }

  lemma RootPlace(pt: PT, root: nat)
    requires Ok(pt, root)
    ensures (4, 0) in pt.at && pt.at[(4, 0)] == root && root in pt.mem && |pt.mem[root]| == 512
  {
    assert PlaceOk(pt.mem, pt.at, (4, 0));
  }

  lemma NoLeafAbove(pt: PT, root: nat, k: Place, i: nat)
    requires Ok(pt, root) && k in pt.at && k.0 >= 3 && i < 512
    ensures pt.at[k] in pt.mem && |pt.mem[pt.at[k]]| == 512 && !IsLeaf(k, pt.mem[pt.at[k]][i])
  {
    assert PlaceOk(pt.mem, pt.at, k);
  }

  lemma ExtendsThen(a: PT, ta: seq<PmmTable.Frag>, b: PT, tb: seq<PmmTable.Frag>, c: PT, tc: seq<PmmTable.Frag>, root: nat)
    requires Extends(a, ta, b, tb, root) && Extends(b, tb, c, tc, root)
    ensures Extends(a, ta, c, tc, root)
  {
    hide Ok;
    hide Maps;
    hide Grew;
    MapsThen(a, b, c, root, 0, 0, 0, 0);
    GrewThen(a, ta, b, tb, c, tc);
  }

  /** `n` page table entries from `i` on. */
  ghost function Filled(mem: Memory, page: nat, i: nat, f: nat, n: nat, flags: Flags): Memory {
    if n == 0 then mem
    else Write(Filled(mem, page, i, f, n - 1, flags), page, i + n - 1, Entry(f + n - 1, flags))
  }

  lemma MapsNone(pt: PT, root: nat, v: nat, f: nat)
    requires Ok(pt, root)
    ensures Maps(pt, pt, root, v, f, 0)
  {
  }

  lemma LeafStep(pt: PT, was: PT, root: nat, k: Place, v: nat, f: nat, n: nat, i: nat, e: Entry)
    requires Ok(pt, root) && Ok(was, root) && Maps(pt, was, root, v, f, n)
    requires k in was.at && k.0 == 1 && i < 512 && k.1 * 512 + i == v + n && e.flags.present && e.frame == f + n
    ensures Ok(Put(was, was.at[k], i, e), root)
    ensures Maps(pt, Put(was, was.at[k], i, e), root, v, f, n + 1)
    ensures NoNewLeaf(was, Put(was, was.at[k], i, e))
  {
    hide Ok;
    hide Maps;
    PutLeaf(was, root, k, i, e);
    MapsThen(pt, was, Put(was, was.at[k], i, e), root, v, f, n, 1);
  }

  ghost function FilledPT(pt: PT, k: Place, i: nat, f: nat, n: nat, flags: Flags): (r: PT)
    requires k in pt.at
    ensures r.at == pt.at
  {
    pt.(mem := Filled(pt.mem, pt.at[k], i, f, n, flags))
  }

  lemma {:induction false} FilledMaps(pt: PT, root: nat, k: Place, i: nat, f: nat, n: nat, flags: Flags)
    requires Ok(pt, root) && k in pt.at && k.0 == 1 && i + n <= 512 && flags.present
    ensures Ok(FilledPT(pt, k, i, f, n, flags), root)
    ensures Maps(pt, FilledPT(pt, k, i, f, n, flags), root, k.1 * 512 + i, f, n)
    ensures NoNewLeaf(pt, FilledPT(pt, k, i, f, n, flags))
  {
    hide Ok;
    hide Maps;
    hide SlotLeaf;
    if n == 0 {
      MapsNone(pt, root, k.1 * 512 + i, f);
    } else {
      FilledMaps(pt, root, k, i, f, n - 1, flags);
      LeafStep(pt, FilledPT(pt, k, i, f, n - 1, flags), root, k, k.1 * 512 + i, f, n - 1,
               i + n - 1, Entry(f + n - 1, flags));
    }
  }

  /** `n` 2M leaves from entry `i` on. */
  ghost function SlotFilled(pt: PT, k: Place, i: nat, f: nat, n: nat, flags: Flags): (r: PT)
    requires k in pt.at && k.0 == 2
    ensures k in r.at && r.at[k] == pt.at[k]
  {
    if n == 0 then pt
    else PutSlot(SlotFilled(pt, k, i, f, n - 1, flags), k, i + n - 1, Entry(f + (n - 1) * 512, flags.(slot := true)))
  }

  lemma SlotStep(pt: PT, was: PT, root: nat, k: Place, v: nat, f: nat, n: nat, i: nat, e: Entry)
    requires Ok(pt, root) && Ok(was, root) && Maps(pt, was, root, v, f, n)
    requires k in was.at && k.0 == 2 && i < 512 && (k.1 * 512 + i) * 512 == v + n
    requires e.flags.present && e.flags.slot && e.frame % 512 == 0 && e.frame == f + n && e.frame > 0
    ensures Ok(PutSlot(was, k, i, e), root)
    ensures Maps(pt, PutSlot(was, k, i, e), root, v, f, n + 512) && SlotLeaf(PutSlot(was, k, i, e), k.1 * 512 + i)
  {
    hide Ok;
    hide Maps;
    PutSlotMaps(was, root, k, i, e);
    MapsThen(pt, was, PutSlot(was, k, i, e), root, v, f, n, 512);
  }

  lemma {:induction false} SlotFilledMaps(pt: PT, root: nat, k: Place, i: nat, f: nat, n: nat, flags: Flags)
    requires Ok(pt, root) && k in pt.at && k.0 == 2 && i + n <= 512 && flags.present
    requires f % 512 == 0 && f >= 512
    ensures Ok(SlotFilled(pt, k, i, f, n, flags), root)
    ensures Maps(pt, SlotFilled(pt, k, i, f, n, flags), root, (k.1 * 512 + i) * 512, f, n * 512)
    ensures n > 0 ==> SlotLeaf(SlotFilled(pt, k, i, f, n, flags), k.1 * 512 + i + n - 1)
  {
    hide Ok;
    hide Maps;
    hide SlotLeaf;
    if n == 0 {
      MapsNone(pt, root, (k.1 * 512 + i) * 512, f);
    } else {
      hide PutSlot;
      SlotFilledMaps(pt, root, k, i, f, n - 1, flags);
      SlotStep(pt, SlotFilled(pt, k, i, f, n - 1, flags), root, k, (k.1 * 512 + i) * 512, f, (n - 1) * 512,
               i + n - 1, Entry(f + (n - 1) * 512, flags.(slot := true)));
    }
  }

  lemma {:induction false} SlotFilledTables(pt: PT, k: Place, i: nat, f: nat, n: nat, flags: Flags)
    requires k in pt.at && k.0 == 2
    ensures forall x <- SlotFilled(pt, k, i, f, n, flags).at :: x in pt.at && SlotFilled(pt, k, i, f, n, flags).at[x] == pt.at[x]
  {
    if n > 0 { SlotFilledTables(pt, k, i, f, n - 1, flags); }
  }

  ghost predicate Sound(pt: PT, t: seq<PmmTable.Frag>, root: nat) {
    PmmTable.Valid(t) && Ok(pt, root) && Held(pt, t)
  }

  /** Tables were added, each on a page that was free before; no translation changed. */
  ghost predicate Extends(pt: PT, t: seq<PmmTable.Frag>, pt': PT, t': seq<PmmTable.Frag>, root: nat) {
    && Ok(pt, root) && Ok(pt', root) && Maps(pt, pt', root, 0, 0, 0)
    && Grew(pt, t, pt', t') && forall k <- pt.at :: k in pt'.at
  }

  lemma ExtendsSelf(pt: PT, t: seq<PmmTable.Frag>, root: nat)
    requires Ok(pt, root) && Held(pt, t)
    ensures Extends(pt, t, pt, t, root)
  {
  }

  /** An entry that is neither empty nor a 2M leaf leads to the table at the place below. */
  lemma BelowEntry(pt: PT, root: nat, k: Place, i: nat)
    requires Ok(pt, root) && k in pt.at && k.0 >= 2 && i < 512
    requires pt.at[k] in pt.mem && |pt.mem[pt.at[k]]| == 512
    requires !Empty(pt.mem[pt.at[k]][i]) && !IsLeaf(k, pt.mem[pt.at[k]][i])
    ensures var c := Child(k, i);
            && c in pt.at && pt.at[c] == pt.mem[pt.at[k]][i].frame
            && pt.at[c] in pt.mem && |pt.mem[pt.at[c]]| == 512
  {
    assert EntryOk(pt.mem, pt.at, k, i) && PlaceOk(pt.mem, pt.at, Child(k, i));
  }

  /** `p` was free, is not any more, and is none of the tables. */
  ghost predicate Taken(pt: PT, t: seq<PmmTable.Frag>, p: nat, t': seq<PmmTable.Frag>) {
    && p != 0 && p !in pt.at.Values && PmmTable.IsFree(t, p) && !PmmTable.IsFree(t', p)
    && (forall x: nat :: PmmTable.IsFree(t', x) ==> PmmTable.IsFree(t, x))
    && Held(pt, t')
  }

  /** What linking a new table comes to. */
  lemma TableLinked(pt: PT, t: seq<PmmTable.Frag>, p: nat, t': seq<PmmTable.Frag>, root: nat, k: Place, i: nat, flags: Flags)
    requires Ok(pt, root) && Held(pt, t) && Taken(pt, t, p, t') && k in pt.at && k.0 >= 2 && i < 512
    requires pt.at[k] in pt.mem && |pt.mem[pt.at[k]]| == 512 && Empty(pt.mem[pt.at[k]][i])
    requires flags.present && !flags.slot
    ensures var b := PutTable(pt, k, i, p, flags);
            && Ok(b, root) && Held(b, t') && Extends(pt, t, b, t', root)
            && k in b.at && b.at[k] == pt.at[k] && b.at[k] in b.mem && |b.mem[b.at[k]]| == 512
            && !Empty(b.mem[b.at[k]][i]) && !b.mem[b.at[k]][i].flags.slot
  {
    PutTableMaps(pt, root, k, i, p, flags);
    TakenTable(pt, t, p, t', k, i, flags);
    assert k != Child(k, i) && pt.at[k] in pt.at.Values;
    hide Ok;
    hide Held;
    hide Maps;
    hide Grew;
  }

  lemma TakenTable(pt: PT, t: seq<PmmTable.Frag>, p: nat, t': seq<PmmTable.Frag>, k: Place, i: nat, flags: Flags)
    requires Taken(pt, t, p, t') && k in pt.at && k.0 >= 1 && pt.at[k] in pt.mem && i < |pt.mem[pt.at[k]]|
    ensures var pt' := PutTable(pt, k, i, p, flags);
            && Grew(pt, t, pt', t') && Held(pt', t')
            && pt.at[k] in pt'.mem && |pt'.mem[pt.at[k]]| == |pt.mem[pt.at[k]]| && pt'.mem[pt.at[k]][i] == Entry(p, flags)
  {
    assert pt.at[k] in pt.at.Values;
    forall k' <- PutTable(pt, k, i, p, flags).at
      ensures PutTable(pt, k, i, p, flags).at[k'] in pt.at.Values || PutTable(pt, k, i, p, flags).at[k'] == p
    {
    }
  }

  /** A page taken from the free pages is none of the tables. */
  lemma FreshPage(pt: PT, t: seq<PmmTable.Frag>, p: nat, t': seq<PmmTable.Frag>)
    requires Held(pt, t) && PmmTable.Takes(t, t', p, 1)
    ensures Taken(pt, t, p, t')
  {
    assert PmmTable.InRange(p, 1, p);
  }
}
