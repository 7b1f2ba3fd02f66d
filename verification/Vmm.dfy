/** `vmm_mapbss` and the `mmap` system call on top of it: build and fill the page tables of a task
    through one mapping window, taking pages from the physical memory manager. */
module Vmm {
  import opened Options
  import opened VmmTree
  import opened VmmMaps
  import opened VmmRights
  import PmmTable

  class Space {
    const root: nat
    var mem: Memory
    ghost var at: Tables
    var tmpmap: nat
    var allocmem: int
    var linkmem: int
    var free: seq<PmmTable.Frag>  // the physical memory manager's table
    var freepages: int

    /** A task with an empty top level table. */
    constructor (free: seq<PmmTable.Frag>, freepages: int, root: nat)
      requires PmmTable.Valid(free) && !PmmTable.IsFree(free, 0) && !PmmTable.IsFree(free, root)
      ensures Good() && this.root == root && this.free == free && this.freepages == freepages
      ensures allocmem == linkmem == 0 && at == map[(4, 0) := root] && forall v: nat :: Lookup(mem, at, v) == None
    {
      this.root, tmpmap, allocmem, linkmem := root, root, 0, 0;
      this.free, this.freepages := free, freepages;
      mem, at := map[root := Zeros()], map[(4, 0) := root];
    }

    ghost function P(): PT
      reads this
    {
      PT(mem, at)
    }

    ghost predicate Good()
      reads this
    {
      Sound(P(), free, root)
    }

    /** The task's own pages and those that are free. */
    function Account(): int
      reads this
    {
      allocmem + PmmTable.Sum(free)
    }

    /** The window shows the table at place `k`. */
    ghost predicate Shows(k: Place)
      reads this
    {
      k in at && tmpmap == at[k] && tmpmap in mem && |mem[tmpmap]| == 512
    }

    /** The physical memory manager has no page left. */
    predicate NoPage()
      reads this
    {
      PmmTable.FirstFit(free, 1) == |free|
    }

    /** It has no 2M slot left, or no room for the entry that splitting a fragment takes. */
    predicate NoSlot(capacity: nat)
      reads this
    {
      var i := PmmTable.FirstSlot(free);
      i == |free| || (PmmTable.SlotBase(free[i]) != free[i].base && |free| == capacity)
    }

    /** The pages that taking a slot loses. */
    function Leak(): nat
      reads this
    {
      var i := PmmTable.FirstSlot(free);
      if i < |free| && PmmTable.FitsSlot(free[i]) && PmmTable.Leaks(free[i]) then PmmTable.Lead(free[i]).size else 0
    }

    /** One cleared page from the physical memory manager. */
    method TakePage() returns (ok: bool, p: nat)
      requires PmmTable.Valid(free) && Held(P(), free)
      modifies this`free, this`freepages
      ensures ok <==> !old(NoPage())
      ensures !ok ==> free == old(free) && freepages == old(freepages)
      ensures ok ==> freepages == old(freepages) - 1 && PmmTable.Sum(free) == old(PmmTable.Sum(free)) - 1
      ensures ok ==> PmmTable.Valid(free) && Taken(P(), old(free), p, free)
    {
      var i := PmmTable.FirstFit(free, 1);
      if i == |free| {
        return false, 0;
      }
      PmmTable.AllocValid(free, i, 1);
      PmmTable.AllocTakes(free, i, 1);
      PmmTable.AllocSum(free, i, 1);
      p := free[i].base;
      FreshPage(P(), free, p, PmmTable.AllocAt(free, i, 1));
      free, freepages := PmmTable.AllocAt(free, i, 1), freepages - 1;
      return true, p;
    }

    /** A new table page for entry `i` of the shown table, which is empty. */
    method NewTable(ghost k: Place, i: nat, access: Flags) returns (ok: bool)
      requires Good() && Shows(k) && k.0 >= 2 && i < 512 && Empty(mem[tmpmap][i])
      requires access.present && !access.slot
      modifies this`mem, this`at, this`allocmem, this`free, this`freepages
      ensures Good() && (!ok ==> NoPage())
      ensures ok ==> Shows(k) && Extends(old(P()), old(free), P(), free, root)
                     && !Empty(mem[tmpmap][i]) && !mem[tmpmap][i].flags.slot
      ensures ok ==> Gives(old(P()), P(), 0, 0, access)
      ensures ok ==> allocmem + freepages == old(allocmem + freepages) && Account() == old(Account())
    {
      hide PmmTable.Sum;
      hide PmmTable.FirstFit;
      hide PmmTable.Valid;
      hide Ok;
      hide Held;
      hide Extends;
      hide Gives;
      ghost var t, pt := free, P();
      var p;
      ok, p := TakePage();
      if !ok {
        return;
      }
      PutTableGives(pt, root, k, i, p, access);
      hide Taken;
      TableLinked(pt, t, p, free, root, k, i, access);
      hide Link;
      mem := Link(mem, tmpmap, i, p, access);
      at := at[Child(k, i) := p];
      assert P() == PutTable(pt, k, i, p, access);
      allocmem := allocmem + 1;
    }

    /** To the table below entry `i`, which is made if there is none. */
    method Descend(ghost k: Place, i: nat, access: Flags) returns (ok: bool)
      requires Good() && Shows(k) && k.0 >= 2 && i < 512
      requires access.present && !access.slot
      requires Empty(mem[tmpmap][i]) || !IsLeaf(k, mem[tmpmap][i])
      modifies this`mem, this`at, this`tmpmap, this`allocmem, this`free, this`freepages
      ensures Good() && (!ok ==> NoPage())
      ensures ok ==> Shows(Child(k, i)) && Extends(old(P()), old(free), P(), free, root) && Gives(old(P()), P(), 0, 0, access)
      ensures ok ==> allocmem + freepages == old(allocmem + freepages) && Account() == old(Account())
    {
      hide Gives;
      hide Ok;
      hide Held;
      hide PmmTable.Valid;
      hide Extends;
      hide PmmTable.Sum;
      hide PmmTable.FirstFit;
      if Empty(mem[tmpmap][i]) {
        ok := NewTable(k, i, access);
        if !ok {
          return;
        }
      } else {
        ok := true;
        ExtendsSelf(P(), free, root);
        GivesNone(P(), 0, access);
      }
      BelowEntry(P(), root, k, i);
      tmpmap := mem[tmpmap][i].frame;
    }

    /** Page table entries from `i` on, until the request or the table ends. */
    method FillPages(v: nat, f: nat, size: nat, access: Flags, i: nat)
      returns (v': nat, f': nat, size': nat, again: bool)
      requires i < 512 && (size > 0 ==> tmpmap in mem && |mem[tmpmap]| == 512)
      modifies this`mem, this`linkmem
      ensures v <= v' <= v + 512 - i && f' == f + v' - v
      ensures size' == PagesUp(size) * PAGE - (v' - v) * PAGE
      ensures again <==> size > 0 && v' == v + 512 - i
      ensures !again ==> size' == 0
      ensures mem == Filled(old(mem), tmpmap, i, f, v' - v, access)
      ensures linkmem == old(linkmem) + v' - v
    {
      var j := i;
      v', f', size', again := v, f, PagesUp(size) * PAGE, false;
      while size' > 0 && !again
        invariant v <= v' && j == i + v' - v <= 512 && f' == f + v' - v
        invariant size' == PagesUp(size) * PAGE - (v' - v) * PAGE
        invariant again <==> size > 0 && j == 512
        invariant tmpmap in old(mem) ==> tmpmap in mem && |mem[tmpmap]| == |old(mem)[tmpmap]|
        invariant mem == Filled(old(mem), tmpmap, i, f, v' - v, access)
        invariant linkmem == old(linkmem) + v' - v
        decreases 512 - j
      {
        mem := Write(mem, tmpmap, j, Entry(f', access));
        v', f', size' := v' + 1, f' + 1, size' - PAGE;
        linkmem := linkmem + 1;
        j := j + 1;
        again := j > 511;
      }
    }

    /** Page directory entries from `i` on, 2M each, until the request or the directory ends. */
    method FillSlots(v: nat, f: nat, size: nat, access: Flags, i: nat, ghost k: Place)
      returns (v': nat, f': nat, size': nat, again: bool)
      requires i < 512 && size > 0 && Shows(k) && k.0 == 2
      modifies this`mem, this`at, this`linkmem
      ensures v < v' <= v + (512 - i) * 512 && f' == f + v' - v && (v' - v) % 512 == 0
      ensures size' == SlotsUp(size) * SLOT - (v' - v) / 512 * SLOT
      ensures again <==> v' == v + (512 - i) * 512
      ensures !again ==> size' == 0
      ensures P() == SlotFilled(old(P()), k, i, f, (v' - v) / 512, access)
      ensures linkmem == old(linkmem) + v' - v
    {
      var j := i;
      v', f', size', again := v, f, SlotsUp(size) * SLOT, false;
      ghost var n := 0;
      while size' > 0 && !again
        invariant j == i + n <= 512 && v' == v + n * 512 && f' == f + n * 512
        invariant size' == SlotsUp(size) * SLOT - n * SLOT && (n == 0 ==> size' > 0)
        invariant again <==> j == 512
        invariant Shows(k) && P() == SlotFilled(old(P()), k, i, f, n, access)
        invariant linkmem == old(linkmem) + n * 512
        decreases 512 - j
      {
        mem := Write(mem, tmpmap, j, Entry(f', access.(slot := true)));
        at := at - {Child(k, j)};
        v', f', size' := v' + 512, f' + 512, size' - SLOT;
        linkmem := linkmem + SLOT / PAGE;
        j := j + 1;
        n := n + 1;
        again := j > 511;
      }
      assert (v' - v) / 512 == n;
    }

    /** From the root to the page directory of page `w`. */
    method ToDirectory(w: nat, access: Flags) returns (ok: bool)
      requires Good() && w < VPAGES && access.present && !access.slot
      modifies this`mem, this`at, this`tmpmap, this`allocmem, this`free, this`freepages
      ensures Good() && (!ok ==> NoPage())
      ensures ok ==> Shows((2, w / 0x4_0000)) && Extends(old(P()), old(free), P(), free, root)
      ensures ok ==> Gives(old(P()), P(), 0, 0, access)
      ensures ok ==> allocmem + freepages == old(allocmem + freepages) && Account() == old(Account())
    {
      hide Gives;
      hide Ok;
      hide Held;
      hide PmmTable.Valid;
      hide Extends;
      hide PmmTable.Sum;
      hide PmmTable.FirstFit;
      RootPlace(P(), root);
      Prefixes(w);
      ghost var a, ta := P(), free;
      tmpmap := root;
      NoLeafAbove(P(), root, (4, 0), Index(4, w));
      ok := Descend((4, 0), Index(4, w), access);
      if !ok {
        return;
      }
      ghost var b, tb := P(), free;
      NoLeafAbove(P(), root, (3, w / 0x800_0000), Index(3, w));
      ok := Descend((3, w / 0x800_0000), Index(3, w), access);
      if ok {
        ExtendsThen(a, ta, b, tb, P(), free, root);
        GivesThen(a, b, P(), root, 0, 0, 0, access);
      }
    }

    /** One pass: from the root down to a table, and along its entries until the request or the table
        ends. After a full table the next pass starts over at the root, also with nothing left to do. */
    method Pass(v: nat, f: nat, size: nat, access: Flags)
      returns (ok: bool, v': nat, f': nat, size': nat, again: bool)
      requires Good() && access.present && !access.slot
      requires v + Cover(size) <= VPAGES && Clear(P(), v, Cover(size))
      requires size >= SLOT ==> Whole(v) && Whole(f)
      modifies this`mem, this`at, this`tmpmap, this`allocmem, this`linkmem, this`free, this`freepages
      ensures Good() && (!ok ==> NoPage())
      ensures ok ==> v <= v' && f' == f + v' - v && Advance(size, v % 512, v' - v, size', again, Big(P(), v, v' - v))
      ensures ok ==> Did(old(P()), old(free), P(), free, root, v, f, v' - v) && Gives(old(P()), P(), v, v' - v, access)
      ensures ok ==> linkmem == old(linkmem) + v' - v && allocmem + freepages == old(allocmem + freepages) && Account() == old(Account())
    {
      hide Gives;
      hide Ok;
      hide Held;
      hide Extends;
      hide Did;
      hide Clear;
      hide Advance;
      hide PmmTable.Sum;
      hide PmmTable.FirstFit;
      CoverPositive(size);
      v', f', size', again := v, f, size, false;
      var w := v % VPAGES;
      ghost var a, ta := P(), free;
      ok := ToDirectory(w, access);
      if !ok {
        return;
      }
      var i := Index(2, w);
      // a free directory entry, memory above the first slot, and a slot or more to go
      if Empty(mem[tmpmap][i]) && f >= 512 && size >= SLOT {
        v', f', size', again := PassSlots(v, f, size, access, a, ta);
      } else {
        ok, v', f', size', again := PassPages(v, f, size, access, a, ta);
      }
    }

    method PassSlots(v: nat, f: nat, size: nat, access: Flags, ghost a: PT, ghost ta: seq<PmmTable.Frag>)
      returns (v': nat, f': nat, size': nat, again: bool)
      requires Good() && Extends(a, ta, P(), free, root) && access.present && !access.slot && Gives(a, P(), 0, 0, access)
      requires v < VPAGES && v % 512 == 0 && f % 512 == 0 && f >= 512 && size >= SLOT
      requires Shows((2, v / 0x4_0000))
      modifies this`mem, this`at, this`linkmem
      ensures Good() && v <= v' && f' == f + v' - v && Advance(size, v % 512, v' - v, size', again, Big(P(), v, v' - v))
      ensures Did(a, ta, P(), free, root, v, f, v' - v) && Gives(a, P(), v, v' - v, access)
      ensures linkmem == old(linkmem) + v' - v
    {
      hide Gives;
      hide Ok;
      hide Held;
      hide Extends;
      hide Did;
      hide SlotFilled;
      ghost var b, k := P(), (2, v / 0x4_0000);
      SlotPlace(v);
      v', f', size', again := FillSlots(v, f, size, access, Index(2, v), k);
      DidSlots(a, ta, b, free, root, k, Index(2, v), v, f, (v' - v) / 512, access);
      SlotsGive(a, b, free, root, k, Index(2, v), v, f, (v' - v) / 512, access);
      hide Big;
      SlotAdvance(size, v' - v, size', again);
    }

    method PassPages(v: nat, f: nat, size: nat, access: Flags, ghost a: PT, ghost ta: seq<PmmTable.Frag>)
      returns (ok: bool, v': nat, f': nat, size': nat, again: bool)
      requires Good() && Extends(a, ta, P(), free, root) && access.present && !access.slot && Gives(a, P(), 0, 0, access)
      requires v <= VPAGES && (size > 0 ==> v < VPAGES && Clear(a, v, Cover(size)))
      requires Shows((2, v % VPAGES / 0x4_0000))
      modifies this`mem, this`at, this`tmpmap, this`allocmem, this`linkmem, this`free, this`freepages
      ensures Good() && (!ok ==> NoPage())
      ensures ok ==> v <= v' && f' == f + v' - v && Advance(size, v % 512, v' - v, size', again, Big(P(), v, v' - v))
      ensures ok ==> Did(a, ta, P(), free, root, v, f, v' - v) && Gives(a, P(), v, v' - v, access)
      ensures ok ==> linkmem == old(linkmem) + v' - v && allocmem + freepages == old(allocmem + freepages) && Account() == old(Account())
    {
      hide Gives;
      hide Ok;
      hide Held;
      hide Extends;
      hide Did;
      hide Clear;
      hide Filled;
      hide Cover;
      v', f', size', again := v, f, size, false;
      var w := v % VPAGES;
      CoverPositive(size);
      ok := ToTable(w, size, access, v, a, ta);
      if !ok {
        return;
      }
      ghost var b := P();
      v', f', size', again := FillPages(v, f, size, access, Index(1, w));
      PagePlace(v, w);
      DidPages(a, ta, b, free, root, (1, w / 512), Index(1, w), v, f, v' - v, access, tmpmap);
      PagesGive(a, b, free, root, (1, w / 512), Index(1, w), v, f, v' - v, access, tmpmap);
      PagesNotBig(a, P(), v, v' - v, size);
      hide Big;
      PageAdvance(size, Index(1, w), v' - v, size', again);
    }

    /** From the directory to the page table, which is made if there is none. With nothing to map the
        window may also end up on the first page of a 2M leaf; nothing is written then. */
    method ToTable(w: nat, size: nat, access: Flags, ghost v: nat, ghost a: PT, ghost ta: seq<PmmTable.Frag>) returns (ok: bool)
      requires Good() && Extends(a, ta, P(), free, root) && access.present && !access.slot && w < VPAGES
      requires Gives(a, P(), 0, 0, access)
      requires size > 0 ==> v == w && Clear(a, v, Cover(size)) && Cover(size) > 0
      requires Shows((2, w / 0x4_0000))
      modifies this`mem, this`at, this`tmpmap, this`allocmem, this`free, this`freepages
      ensures Good() && (!ok ==> NoPage())
      ensures ok ==> (size > 0 ==> Shows((1, w / 512))) && Extends(a, ta, P(), free, root) && Gives(a, P(), 0, 0, access)
      ensures ok ==> allocmem + freepages == old(allocmem + freepages) && Account() == old(Account())
    {
      hide Gives;
      hide Ok;
      hide Held;
      hide Extends;
      hide Clear;
      hide Cover;
      ghost var k := (2, w / 0x4_0000);
      var i := Index(2, w);
      ok := true;
      Prefixes(w);
      if Empty(mem[tmpmap][i]) {
        ghost var b, tb := P(), free;
        ok := NewTable(k, i, access);
        if !ok {
          return;
        }
        ExtendsThen(a, ta, b, tb, P(), free, root);
        GivesThen(a, b, P(), root, 0, 0, 0, access);
      } else if size > 0 {
        NoLeafHere(a, ta, P(), free, root, v, Cover(size));
      }
      if !IsLeaf(k, mem[tmpmap][i]) { BelowEntry(P(), root, k, i); }
      tmpmap := mem[tmpmap][i].frame;
    }

    /** Maps `size` bytes, rounded up, at `bss` to the physical memory at `phys`. */
    method MapBss(bss: nat, phys: nat, size: nat, access: Flags) returns (ok: bool, ghost n: nat)
      requires Good() && Usable(access)
      requires bss / PAGE + Cover(size) <= VPAGES && Clear(P(), bss / PAGE, Cover(size))
      requires size >= SLOT ==> Whole(bss / PAGE) && Whole(phys / PAGE)
      modifies this`mem, this`at, this`tmpmap, this`allocmem, this`linkmem, this`free, this`freepages
      ensures Good() && (!ok ==> NoPage())
      ensures ok ==> n == (if Big(P(), bss / PAGE, n) then SlotsUp(size) * 512 else PagesUp(size))
      ensures ok && size < SLOT ==> !Big(P(), bss / PAGE, n)
      ensures ok ==> Did(old(P()), old(free), P(), free, root, bss / PAGE, phys / PAGE, n)
      ensures ok ==> Translates(old(mem), mem, root, bss / PAGE, phys / PAGE, n)
      ensures AsAsked(access, Prepared(access)) && (ok ==> Gives(old(P()), P(), bss / PAGE, n, Prepared(access)))
      ensures ok ==> Grants(old(P()), P(), root, bss / PAGE, n, Prepared(access))
      ensures ok ==> linkmem == old(linkmem) + n && allocmem + freepages == old(allocmem + freepages) && Account() == old(Account())
    {
      hide Gives;
      hide Grants;
      hide AsAsked;
      hide Prepared;
      hide Ok;
      hide Sound;
      hide Did;
      hide Translates;
      hide Clear;
      hide Advance;
      hide Remaining;
      hide Cover;
      hide Whole;
      hide Big;
      ghost var a, ta := P(), free;
      NoneBig(a, bss / PAGE);
      ghost var v0, f0 := bss / PAGE, phys / PAGE;
      DidNothing(a, ta, root, v0, f0);
      DidTranslates(a, ta, a, ta, root, v0, f0, 0);
      DidOk(a, ta, a, ta, root, v0, f0, 0);
      PreparedAsAsked(access);
      GivesNone(a, v0, Prepared(access));
      GivesGrants(a, a, root, v0, 0, Prepared(access));
      if size == 0 {
        return true, 0;
      }
      var v: nat, f: nat, left: nat, again := bss / PAGE, phys / PAGE, size, true;
      n := 0;
      RemainingStart(size);
      WholeMod(0);
      ok := true;
      while again
        invariant Good() && ok && v0 <= v && f == f0 + v - v0
        invariant Did(a, ta, P(), free, root, v0, f0, v - v0) && Gives(a, P(), v0, v - v0, Prepared(access))
        invariant Remaining(size, v - v0, left, Big(P(), v0, v - v0)) && (!again ==> left == 0)
        invariant v - v0 + Cover(left) <= Cover(size) && Clear(P(), v, Cover(left))
        invariant left >= SLOT ==> Whole(v) && Whole(f) && Whole(v - v0)
        invariant linkmem == old(linkmem) + v - v0 && allocmem + freepages == old(allocmem + freepages) && Account() == old(Account())
        decreases again, left
      {
        ghost var b, tb, v1, left1 := P(), free, v, left;
        ok, v, f, left, again := Pass(v, f, left, Prepared(access));
        if !ok {
          return;
        }
        AdvanceRemaining(size, v1 - v0, left1, Big(b, v0, v1 - v0), v1 % 512, v - v1, left, again, Big(P(), v1, v - v1));
        BigThen(b, tb, P(), free, root, v0, f0 + v1 - v0, v1 - v0, v - v1);
        assert left1 >= SLOT ==> v1 % 512 == 0 by { WholeMod(v1); }
        AdvanceCover(left1, v1 % 512, v - v1, left, again, Big(P(), v1, v - v1));
        WholeSum(v1, v - v1);
        WholeSum(f0 + v1 - v0, v - v1);
        WholeSum(v1 - v0, v - v1);
        DidThen(a, ta, b, tb, P(), free, root, v0, f0, v1 - v0, v - v1);
        DidOk(b, tb, P(), free, root, v1, f0 + v1 - v0, v - v1);
        GivesThen(a, b, P(), root, v0, v1 - v0, v - v1, Prepared(access));
        ClearRest(b, tb, P(), free, root, v1, f0 + v1 - v0, v - v1, Cover(left1), Cover(left));
      }
      n := v - v0;
      RemainingEnd(size, n, Big(P(), v0, n));
      DidTranslates(a, ta, P(), free, root, v0, f0, n);
      DidOk(a, ta, P(), free, root, v0, f0, n);
      GivesGrants(a, P(), root, v0, n, Prepared(access));
    }

    /** A 2M slot from the physical memory manager, whose table has `capacity` entries. */
    method TakeSlot(capacity: nat) returns (ok: bool, p: nat)
      requires PmmTable.Valid(free) && Held(P(), free)
      modifies this`free, this`freepages
      ensures PmmTable.Valid(free) && Held(P(), free)
      ensures ok <==> !old(NoSlot(capacity))
      ensures !ok ==> free == old(free) && freepages == old(freepages)
      ensures ok ==> p % 512 == 0 && Granted(old(free), free, p, 512) && freepages == old(freepages) - 512
      ensures ok ==> PmmTable.Sum(free) == old(PmmTable.Sum(free) - 512 - Leak())
    {
      var i := PmmTable.FirstSlot(free);
      if i == |free| || (PmmTable.SlotBase(free[i]) != free[i].base && |free| == capacity) {
        return false, 0;
      }
      PmmTable.SlotValid(free, i);
      PmmTable.SlotTakes(free, i);
      PmmTable.SlotSum(free, i);
      p := PmmTable.SlotBase(free[i]);
      SlotGranted(free, i);
      free, freepages := PmmTable.SlotAt(free, i), freepages - 512;
      return true, p;
    }

    /** `n` pages at `addr`, 512 or 1 of them, on memory of their own. */
    method MmapUnit(addr: nat, slot: bool, capacity: nat, ghost m: set<nat>) returns (ok: bool)
      requires Good() && Private(P(), free, root, m)
      requires (slot ==> Whole(addr / PAGE)) && addr / PAGE + UnitPages(slot) <= VPAGES
      requires Unmapped(P(), root, addr / PAGE, UnitPages(slot))
      modifies this`mem, this`at, this`tmpmap, this`allocmem, this`linkmem, this`free, this`freepages
      ensures Good() && (!ok ==> NoPage() || (slot && NoSlot(capacity)))
      ensures ok ==> Private(P(), free, root, m + Range(addr / PAGE, UnitPages(slot)))
      ensures ok ==> SameOutside(old(P()), P(), root, addr / PAGE, UnitPages(slot))
      ensures ok ==> Gives(old(P()), P(), addr / PAGE, UnitPages(slot), MMAPPED)
      ensures ok ==> allocmem + freepages == old(allocmem + freepages) && linkmem == old(linkmem) + UnitPages(slot)
      ensures ok ==> Account() == old(Account() - if slot then Leak() else 0)
    {
      hide Gives;
      hide Grants;
      hide AsAsked;
      hide Ok;
      hide Maps;
      hide Grew;
      hide Private;
      hide Unmapped;
      hide SameOutside;
      hide Range;
      hide PmmTable.Valid;
      ghost var a, t := P(), free;
      var p;
      if slot { ok, p := TakeSlot(capacity); } else { ok, p := TakeOne(); }
      if !ok {
        return;
      }
      ghost var t1 := free;
      UnmappedClear(a, root, addr / PAGE, UnitPages(slot));
      UnitCover(slot);
      PageNumber(p);
      MmapAsks();
      hide Prepared;
      ghost var n;
      ok, n := MapBss(addr, p * PAGE, UnitPages(slot) * PAGE, USER_RW);
      if ok {
        PrivateAfter(a, t, t1, P(), free, root, m, addr / PAGE, p, n);
        OutsideAfter(a, t1, P(), free, root, addr / PAGE, p, n);
        allocmem := allocmem + UnitPages(slot);
      }
    }

    method TakeOne() returns (ok: bool, p: nat)
      requires PmmTable.Valid(free) && Held(P(), free)
      modifies this`free, this`freepages
      ensures PmmTable.Valid(free) && Held(P(), free)
      ensures ok <==> !old(NoPage())
      ensures !ok ==> free == old(free) && freepages == old(freepages)
      ensures ok ==> Granted(old(free), free, p, 1) && freepages == old(freepages) - 1
      ensures ok ==> PmmTable.Sum(free) == old(PmmTable.Sum(free)) - 1
    {
      ok, p := TakePage();
    }

    /** The system call: 2M slots for 2M and more, pages otherwise, on memory of their own. */
    method Mmap(addr: nat, length: nat, capacity: nat, ghost m: set<nat>) returns (ok: bool, data: nat)
      requires Good() && Private(P(), free, root, m)
      requires addr / PAGE + Cover(length) <= VPAGES && (length >= SLOT ==> Whole(addr / PAGE))
      requires Unmapped(P(), root, addr / PAGE, Cover(length))
      modifies this`mem, this`at, this`tmpmap, this`allocmem, this`linkmem, this`free, this`freepages
      ensures Good() && data == addr && (!ok ==> NoPage() || (length >= SLOT && NoSlot(capacity)))
      ensures ok ==> Private(P(), free, root, m + Range(addr / PAGE, Cover(length)))
      ensures ok ==> SameOutside(old(P()), P(), root, addr / PAGE, Cover(length))
      ensures ok ==> Gives(old(P()), P(), addr / PAGE, Cover(length), MMAPPED)
      ensures ok ==> allocmem + freepages == old(allocmem + freepages) && linkmem == old(linkmem) + Cover(length)
      ensures ok ==> Account() <= old(Account()) && (length < SLOT ==> Account() == old(Account()))
    {
      hide Gives;
      hide Ok;
      hide Sound;
      hide Private;
      hide Unmapped;
      hide SameOutside;
      hide Range;
      hide Whole;
      hide PmmTable.Sum;
      hide PmmTable.FirstFit;
      hide PmmTable.FirstSlot;
      data := addr;
      if length >= SLOT {
        ok := MmapUnits(addr, true, SlotsUp(length), capacity, m);
      } else {
        ok := MmapUnits(addr, false, PagesUp(length), capacity, m);
      }
    }

    method MmapUnits(addr: nat, slot: bool, count: nat, capacity: nat, ghost m: set<nat>) returns (ok: bool)
      requires Good() && Private(P(), free, root, m)
      requires addr / PAGE + count * UnitPages(slot) <= VPAGES && (slot ==> Whole(addr / PAGE))
      requires Unmapped(P(), root, addr / PAGE, count * UnitPages(slot))
      modifies this`mem, this`at, this`tmpmap, this`allocmem, this`linkmem, this`free, this`freepages
      ensures Good() && (!ok ==> NoPage() || (slot && NoSlot(capacity)))
      ensures ok ==> Private(P(), free, root, m + Range(addr / PAGE, count * UnitPages(slot)))
      ensures ok ==> SameOutside(old(P()), P(), root, addr / PAGE, count * UnitPages(slot))
      ensures ok ==> Gives(old(P()), P(), addr / PAGE, count * UnitPages(slot), MMAPPED)
      ensures ok ==> allocmem + freepages == old(allocmem + freepages) && linkmem == old(linkmem) + count * UnitPages(slot)
      ensures ok ==> Account() <= old(Account()) && (!slot ==> Account() == old(Account()))
    {
      hide Gives;
      hide Ok;
      hide Sound;
      hide Private;
      hide Unmapped;
      hide SameOutside;
      hide Range;
      hide Whole;
      ghost var v0, a, u := addr / PAGE, P(), UnitPages(slot);
      var arg0, i := addr, 0;
      ok := true;
      RangeNone(m, v0);
      OutsideNone(a, free, root, v0);
      GivesNone(a, v0, MMAPPED);
      while i < count
        invariant 0 <= i <= count && Good() && ok && arg0 / PAGE == v0 + i * u && (slot ==> Whole(arg0 / PAGE))
        invariant Private(P(), free, root, m + Range(v0, i * u))
        invariant Unmapped(P(), root, v0 + i * u, (count - i) * u)
        invariant SameOutside(a, P(), root, v0, i * u) && Gives(a, P(), v0, i * u, MMAPPED)
        invariant allocmem + freepages == old(allocmem + freepages) && linkmem == old(linkmem) + i * u
        invariant Account() <= old(Account()) && (!slot ==> Account() == old(Account()))
      {
        ghost var b := P();
        UnitSplit(count - i, u);
        UnmappedFirst(b, root, v0 + i * u, u, (count - i - 1) * u);
        UnitFits(v0, i, count, u);
        ok := MmapUnit(arg0, slot, capacity, m + Range(v0, i * u));
        if !ok {
          return;
        }
        UnitSplit(i + 1, u);
        UnmappedRest(b, P(), root, v0 + i * u, u, (count - i - 1) * u);
        OutsideOk(b, P(), root, v0 + i * u, u);
        GivesThen(a, b, P(), root, v0, i * u, u, MMAPPED);
        OutsideThen(a, b, P(), root, v0, i * u, u);
        RangeMore(m, v0, i * u, u);
        NextUnit(arg0, slot);
        arg0 := arg0 + UnitPages(slot) * PAGE;
        i := i + 1;
      }
    }
  
    /** Any number of calls, on ranges that are unmapped to begin with and do not meet. */
    method MmapAll(requests: seq<Request>, capacity: nat, ghost m: set<nat>) returns (ok: bool)
      requires Good() && Private(P(), free, root, m)
      requires forall i :: 0 <= i < |requests| ==> RequestOk(requests[i]) && Unmapped(P(), root, First(requests[i]), Many(requests[i]))
      requires forall i, j :: 0 <= i < j < |requests| ==> Apart(requests[i], requests[j])
      modifies this`mem, this`at, this`tmpmap, this`allocmem, this`linkmem, this`free, this`freepages
      ensures Good() && (!ok ==> NoPage() || NoSlot(capacity))
      ensures ok ==> Private(P(), free, root, m + Ranges(requests)) && Lent(P(), Ranges(requests)) && Grafts(old(P()), P(), MMAPPED)
      ensures ok ==> allocmem + freepages == old(allocmem + freepages) && linkmem == old(linkmem) + Pages(requests)
      ensures ok ==> Account() <= old(Account())
    {
      hide Gives;
      hide MarkedAs;
      hide Grafts;
      hide Ok;
      hide Sound;
      hide Private;
      hide Unmapped;
      hide SameOutside;
      hide Range;
      hide Cover;
      var i := 0;
      ok := true;
      assert m + Ranges([]) == m;
      GivesNone(P(), 0, MMAPPED);
      GraftsOf(P(), P(), 0, 0, MMAPPED);
      while i < |requests|
        invariant 0 <= i <= |requests| && Good() && ok && Private(P(), free, root, m + Ranges(requests[..i]))
        invariant forall j :: i <= j < |requests| ==> Unmapped(P(), root, First(requests[j]), Many(requests[j]))
        invariant Lent(P(), Ranges(requests[..i])) && Grafts(old(P()), P(), MMAPPED)
        invariant allocmem + freepages == old(allocmem + freepages) && linkmem == old(linkmem) + Pages(requests[..i])
        invariant Account() <= old(Account())
      {
        var r := requests[i];
        ghost var a := P();
        assert requests[..i + 1][..i] == requests[..i];
        var data;
        ok, data := Mmap(r.addr, r.length, capacity, m + Ranges(requests[..i]));
        if !ok {
          return;
        }
        LentAfter(a, P(), root, Ranges(requests[..i]), First(r), Many(r));
        OutsideOk(a, P(), root, First(r), Many(r));
        GivesGrafts(old(P()), a, P(), root, First(r), Many(r), MMAPPED);
        assert m + Ranges(requests[..i]) + Range(First(r), Many(r)) == m + Ranges(requests[..i + 1]);
        forall j | i + 1 <= j < |requests|
          ensures Unmapped(P(), root, First(requests[j]), Many(requests[j]))
        {
          assert Apart(r, requests[j]);
          UnmappedApart(a, P(), root, First(r), Many(r), First(requests[j]), Many(requests[j]));
        }
        i := i + 1;
      }
      assert requests[..|requests|] == requests;
    }
  }

  /** Arguments of the system call. */
  datatype Request = Request(addr: nat, length: nat)

  function First(r: Request): nat {
    r.addr / PAGE
  }

  function Many(r: Request): nat {
    Cover(r.length)
  }

  predicate RequestOk(r: Request) {
    First(r) + Many(r) <= VPAGES && (r.length >= SLOT ==> Whole(First(r)))
  }

  predicate Apart(r: Request, s: Request) {
    First(r) + Many(r) <= First(s) || First(s) + Many(s) <= First(r)
  }

  /** All pages of the requests, and how many they are. */
  ghost function Ranges(rs: seq<Request>): set<nat> {
    if rs == [] then {} else Ranges(rs[..|rs| - 1]) + Range(First(rs[|rs| - 1]), Many(rs[|rs| - 1]))
  }

  function Pages(rs: seq<Request>): nat {
    if rs == [] then 0 else Pages(rs[..|rs| - 1]) + Many(rs[|rs| - 1])
  }

  /** What is unmapped elsewhere stays so. */
  lemma UnmappedApart(a: PT, b: PT, root: nat, v: nat, n: nat, w: nat, m: nat)
    requires SameOutside(a, b, root, v, n) && Unmapped(a, root, w, m) && (v + n <= w || w + m <= v)
    ensures Unmapped(b, root, w, m)
  {
    hide View;
    hide Ok;
  }

  // ----- a writable page next to a read-only one

  const TEXT := Flags(true, false, true, false, false, 0)

  lemma OnePage(v: nat)
    ensures Cover(PAGE) == 1 && PagesUp(PAGE) == 1 && PAGE < SLOT && v * PAGE / PAGE == v
    ensures Usable(TEXT) && Usable(USER_RW) && Prepared(TEXT) == TEXT && Prepared(USER_RW) == MMAPPED
  {
  }

  lemma NewUnmapped(pt: PT, root: nat, v: nat)
    requires Ok(pt, root) && forall x: nat :: Lookup(pt.mem, pt.at, x) == None
    ensures Unmapped(pt, root, v, 1)
  {
    hide Lookup;
  }

  lemma StillUnmapped(a: PT, ta: seq<PmmTable.Frag>, b: PT, tb: seq<PmmTable.Frag>, root: nat, v: nat, f: nat, w: nat)
    requires Did(a, ta, b, tb, root, v, f, 1) && Unmapped(a, root, w, 1) && v != w
    ensures Unmapped(b, root, w, 1)
  {
    hide View;
    hide Ok;
  }

  lemma FirstPage(a: PT, b: PT, root: nat, v: nat, f: nat)
    requires Ok(a, root) && Ok(b, root) && Bare(a) && v < VPAGES
    requires Gives(a, b, v, 1, TEXT) && Translates(a.mem, b.mem, root, v, f, 1)
    ensures Walk(b.mem, root, 4, v) == Some(f) && Rights(b.mem, root, 4, v) == Some(RightOf(TEXT)) && MarkedAs(b, v, TEXT)
  {
    hide Ok;
    hide Walk;
    hide Rights;
    hide Grafts;
    hide Marks;
    FirstGranted(a, b, root, TEXT, v);
  }

  lemma SecondPage(a: PT, b: PT, c: PT, root: nat, v: nat, w: nat, g: nat)
    requires Ok(a, root) && Ok(b, root) && Ok(c, root) && Bare(a) && v < VPAGES && w < VPAGES && v != w
    requires v / 0x800_0000 == w / 0x800_0000 && Gives(a, b, v, 1, TEXT) && Gives(b, c, w, 1, MMAPPED)
    requires Translates(b.mem, c.mem, root, w, g, 1) && Grants(b, c, root, w, 1, MMAPPED)
    ensures Walk(c.mem, root, 4, w) == Some(g) && Rights(c.mem, root, 4, w) != Some(RightOf(MMAPPED))
    ensures Walk(c.mem, root, 4, v) == Walk(b.mem, root, 4, v) && Rights(c.mem, root, 4, v) == Rights(b.mem, root, 4, v)
  {
    hide Ok;
    hide Walk;
    hide Rights;
    hide Grafts;
    hide Marks;
    hide PathAllows;
    SecondIff(a, b, c, root, TEXT, v, MMAPPED, w);
  }

  /** Two pages of a new task, the first read-only and the second writable, below the same top level entry: the second
      does not get what it is mapped with. */
  method ReadOnlyFirst(free: seq<PmmTable.Frag>, freepages: int, root: nat, v: nat, w: nat, f: nat, g: nat)
    returns (s: Space, ok: bool)
    requires PmmTable.Valid(free) && !PmmTable.IsFree(free, 0) && !PmmTable.IsFree(free, root)
    requires v < VPAGES && w < VPAGES && v != w && v / 0x800_0000 == w / 0x800_0000
    ensures s.root == root && (!ok ==> s.NoPage())
    ensures ok ==> Walk(s.mem, root, 4, v) == Some(f) && Rights(s.mem, root, 4, v) == Some(Right(false, true, false))
    ensures ok ==> Walk(s.mem, root, 4, w) == Some(g) && Rights(s.mem, root, 4, w) != Some(Right(true, true, true))
  {
    hide Ok;
    hide Held;
    hide Walk;
    hide Rights;
    hide Gives;
    hide Grants;
    hide AsAsked;
    hide Did;
    hide Translates;
    hide Clear;
    hide Unmapped;
    hide Cover;
    hide PagesUp;
    hide SlotsUp;
    hide Big;
    hide Usable;
    hide Prepared;
    hide Lookup;
    hide PmmTable.Valid;
    hide PmmTable.FirstFit;
    hide PmmTable.Sum;
    OnePage(v);
    OnePage(w);
    OnePage(f);
    OnePage(g);
    s := new Space(free, freepages, root);
    ghost var a, ta := s.P(), s.free;
    NewUnmapped(a, root, v);
    NewUnmapped(a, root, w);
    UnmappedClear(a, root, v, 1);
    ghost var n;
    ok, n := s.MapBss(v * PAGE, f * PAGE, PAGE, TEXT);
    if ok {
      ghost var b, tb := s.P(), s.free;
      StillUnmapped(a, ta, b, tb, root, v, f, w);
      UnmappedClear(b, root, w, 1);
      FirstPage(a, b, root, v, f);
      ok, n := s.MapBss(w * PAGE, g * PAGE, PAGE, USER_RW);
      if ok { SecondPage(a, b, s.P(), root, v, w, g); }
    }
  }
}
