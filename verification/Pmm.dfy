/** The physical memory manager itself: a fixed array of fragments with byte addresses, kept dense
    by shifting entries, and the free page counter. */
module Pmm {
  import opened PmmTable

  const PAGE := 4096
  const SLOT := 2097152

  datatype Entry = Entry(base: nat, size: nat)

  /** `kpanic` does not return. */
  datatype Result = Panic | At(addr: nat)

  function ToFrag(e: Entry): Frag {
    Frag(e.base / PAGE, e.size)
  }

  ghost function ToTable(s: seq<Entry>): (t: seq<Frag>)
    ensures |t| == |s|
    ensures forall i {:trigger t[i]} {:trigger s[i]} :: 0 <= i < |s| ==> t[i] == ToFrag(s[i])
  {
    seq(|s|, i requires 0 <= i < |s| => ToFrag(s[i]))
  }

  ghost predicate Aligned(s: seq<Entry>) {
    forall i :: 0 <= i < |s| ==> s[i].base % PAGE == 0
  }

  lemma {:induction false} FirstFitIs(t: seq<Frag>, n: nat, i: nat)
    requires i <= |t| && (forall j :: 0 <= j < i ==> t[j].size < n) && (i < |t| ==> t[i].size >= n)
    ensures FirstFit(t, n) == i
  {
    if i > 0 { FirstFitIs(t[1..], n, i - 1); }
  }

  lemma {:induction false} FirstSlotIs(t: seq<Frag>, i: nat)
    requires i <= |t| && (forall j :: 0 <= j < i ==> !FitsSlot(t[j])) && (i < |t| ==> FitsSlot(t[i]))
    ensures FirstSlot(t) == i
  {
    if i > 0 { FirstSlotIs(t[1..], i - 1); }
  }

  lemma {:induction false} FirstTouchingIs(t: seq<Frag>, base: nat, n: nat, i: nat)
    requires i <= |t| && (forall j :: 0 <= j < i ==> !Touches(t[j], base, n)) && (i < |t| ==> Touches(t[i], base, n))
    ensures FirstTouching(t, base, n) == i
  {
    if i > 0 { FirstTouchingIs(t[1..], base, n, i - 1); }
  }

  lemma TableUpdate(s: seq<Entry>, i: nat, e: Entry)
    requires i < |s|
    ensures ToTable(s[i := e]) == ToTable(s)[i := ToFrag(e)]
    ensures Aligned(s) && e.base % PAGE == 0 ==> Aligned(s[i := e])
  {
  }

  lemma TableConcat(a: seq<Entry>, b: seq<Entry>)
    ensures ToTable(a + b) == ToTable(a) + ToTable(b)
    ensures Aligned(a) && Aligned(b) ==> Aligned(a + b)
  {
  }

  lemma TableSlice(s: seq<Entry>, i: nat, j: nat)
    requires i <= j <= |s|
    ensures ToTable(s[i..j]) == ToTable(s)[i..j]
    ensures Aligned(s) ==> Aligned(s[i..j])
  {
  }

  lemma TableDeleted(s: seq<Entry>, i: nat)
    requires i < |s|
    ensures ToTable(s[..i] + s[i + 1..]) == Deleted(ToTable(s), i)
    ensures Aligned(s) ==> Aligned(s[..i] + s[i + 1..])
  {
    TableConcat(s[..i], s[i + 1..]);
    TableSlice(s, 0, i);
    TableSlice(s, i + 1, |s|);
  }

  function Pages(s: seq<Entry>): nat {
    if s == [] then 0 else s[0].size + Pages(s[1..])
  }

  lemma {:induction false} PagesSum(s: seq<Entry>)
    ensures Pages(s) == Sum(ToTable(s))
  {
    if s != [] {
      PagesSum(s[1..]);
      assert ToTable(s)[1..] == ToTable(s[1..]);
    }
  }

  // ----- bytes and pages

  function ByteSlot(base: nat): nat {
    (base + SLOT - 1) / SLOT * SLOT
  }

  lemma ByteSlotPages(e: Entry)
    requires e.base % PAGE == 0
    ensures ByteSlot(e.base) == SlotBase(ToFrag(e)) * PAGE
    ensures e.base + e.size * PAGE >= ByteSlot(e.base) + SLOT <==> FitsSlot(ToFrag(e))
    ensures ByteSlot(e.base) == e.base <==> SlotBase(ToFrag(e)) == ToFrag(e).base
    ensures ByteSlot(e.base) >= e.base && (ByteSlot(e.base) - e.base) / PAGE == Lead(ToFrag(e)).size
  {
    var p := e.base / PAGE;
    var q := (p + 511) / 512;
    assert 512 * q <= p + 511 < 512 * q + 512;
    assert SLOT * q <= e.base + SLOT - 1 < SLOT * q + SLOT;
    SlotQuotient(e.base + SLOT - 1, q);
    PageQuotient(q * 512 - p);
  }

  lemma SlotQuotient(a: nat, q: nat)
    requires 2097152 * q <= a < 2097152 * q + 2097152
    ensures a / 2097152 == q
  {
  }

  lemma PageQuotient(k: nat)
    ensures k * 4096 / 4096 == k && k * 4096 % 4096 == 0
  {
  }

  lemma MovedDown(s: seq<Entry>, t: seq<Entry>, i: nat, n: nat)
    requires i < n <= |s| == |t|
    requires forall k :: 0 <= k < i ==> t[k] == s[k]
    requires forall k :: i <= k < n - 1 ==> t[k] == s[k + 1]
    ensures t[..n - 1] == s[..n][..i] + s[..n][i + 1..]
  {
  }

  lemma MovedUp(s: seq<Entry>, t: seq<Entry>, i: nat, n: nat)
    requires i < n < |s| == |t|
    requires forall k :: 0 <= k <= i ==> t[k] == s[k]
    requires forall k :: i < k <= n ==> t[k] == s[k - 1]
    ensures t[..n + 1] == s[..n][..i + 1] + s[..n][i..]
  {
  }

  /** After `i` was doubled and both copies were changed. */
  lemma Halved(s: seq<Entry>, t: seq<Entry>, i: nat)
    requires i < |s| && |t| == |s| + 1
    requires forall k :: 0 <= k < i ==> t[k] == s[k]
    requires forall k :: i + 1 < k < |t| ==> t[k] == s[k - 1]
    ensures t == s[..i] + [t[i], t[i + 1]] + s[i + 1..]
  {
  }

  lemma DeletedLead(t: seq<Frag>, i: nat, lead: Frag, tail: Frag)
    requires i < |t|
    ensures Deleted(t[..i] + [lead, tail] + t[i + 1..], i) == t[i := tail]
  {
  }

  class Manager {
    const entries: array<Entry>
    var size: nat
    var freepages: int
    const totalpages: nat

    /** The table as the boot code fills it from the memory map: everything in it is free. */
    constructor (capacity: nat, found: seq<Entry>)
      requires |found| <= capacity && Aligned(found) && Valid(ToTable(found))
      ensures Good() && fresh(entries) && entries.Length == capacity && Table() == ToTable(found)
      ensures freepages == totalpages == Sum(ToTable(found))
    {
      entries := new Entry[capacity](i requires 0 <= i < capacity => if i < |found| then found[i] else Entry(0, 0));
      size := |found|;
      freepages := Pages(found);
      totalpages := Pages(found);
      new;
      PagesSum(found);
      assert Stored() == found;
    }

    ghost function Stored(): seq<Entry>
      requires size <= entries.Length
      reads this, entries
    {
      entries[..size]
    }

    ghost function Table(): seq<Frag>
      requires size <= entries.Length
      reads this, entries
    {
      ToTable(Stored())
    }

    ghost predicate Good()
      reads this, entries
    {
      size <= entries.Length && Aligned(Stored()) && Valid(Table())
    }

    /** Entries from `i` on move one place down. */
    method ShiftDown(i: nat)
      requires i < size <= entries.Length
      modifies this`size, entries
      ensures size == old(size) - 1
      ensures Stored() == old(Stored())[..i] + old(Stored())[i + 1..]
    {
      var j := i;
      while j < size - 1
        invariant i <= j <= size - 1 && size == old(size)
        invariant forall k :: 0 <= k < i ==> entries[k] == old(entries[k])
        invariant forall k :: i <= k < j ==> entries[k] == old(entries[k + 1])
        invariant forall k :: j <= k < size ==> entries[k] == old(entries[k])
      {
        entries[j] := entries[j + 1];
        j := j + 1;
      }
      size := size - 1;
      MovedDown(old(entries[..]), entries[..], i, old(size));
    }

    /** Entries from `i` on move one place up; entry `i` stays where it is as well. */
    method ShiftUp(i: nat)
      requires i < size < entries.Length
      modifies this`size, entries
      ensures size == old(size) + 1
      ensures Stored() == old(Stored())[..i + 1] + old(Stored())[i..]
    {
      var j := size;
      while j > i
        invariant i <= j <= size && size == old(size)
        invariant forall k :: 0 <= k <= j && k < size ==> entries[k] == old(entries[k])
        invariant forall k :: j < k <= size ==> entries[k] == old(entries[k - 1])
      {
        entries[j] := entries[j - 1];
        j := j - 1;
      }
      size := size + 1;
      MovedUp(old(entries[..]), entries[..], i, old(size));
    }

    method Alloc(pages: int) returns (r: Result)
      requires Good() && -0x8000_0000 <= pages < 0x8_0000  // `pages*__PAGESIZE` is an int
      modifies this`size, this`freepages, entries
      ensures Good()
      ensures var t, n := old(Table()), pages % 0x1_0000_0000_0000_0000;
              var i := FirstFit(t, n);
              if i == |t| then r == Panic && Table() == t && freepages == old(freepages)
              else r == At(t[i].base * PAGE) && Table() == AllocAt(t, i, n) && freepages == old(freepages) - n
    {
      // the comparison below is made on unsigned 64-bit numbers
      var n := pages % 0x1_0000_0000_0000_0000;
      ghost var t := Table();
      var i := 0;
      while i < size && entries[i].size < n
        invariant 0 <= i <= size
        invariant forall j :: 0 <= j < i ==> t[j].size < n
        modifies {}
      {
        i := i + 1;
      }
      FirstFitIs(t, n, i);
      if i == size {
        return Panic;
      }
      var b := TakeFrom(i, n);
      freepages := freepages - n;
      return At(b);
    }

    /** The first `n` pages of entry `i`. */
    method TakeFrom(i: nat, n: nat) returns (b: nat)
      requires Good() && i < size && n <= entries[i].size
      modifies this`size, entries
      ensures Good()
      ensures b == old(Table())[i].base * PAGE && Table() == AllocAt(old(Table()), i, n)
    {
      ghost var st, t := Stored(), Table();
      AllocValid(t, i, n);
      b := entries[i].base;
      assert b == st[i].base && b % PAGE == 0;
      entries[i] := Entry(b + n * PAGE, entries[i].size - n);
      PageSum(b, n);
      TableUpdate(st, i, entries[i]);
      assert Stored() == st[i := entries[i]];
      if entries[i].size == 0 {
        TableDeleted(Stored(), i);
        ShiftDown(i);
        assert Deleted(t[i := ToFrag(Entry(b + n * PAGE, 0))], i) == Deleted(t, i);
      }
    }

    method AllocSlot() returns (r: Result)
      requires Good()
      modifies this`size, this`freepages, entries
      ensures Good()
      ensures var t := old(Table());
              var i := FirstSlot(t);
              if i == |t| || (SlotBase(t[i]) != t[i].base && |t| == entries.Length)
              then r == Panic && Table() == t && freepages == old(freepages)
              else r == At(SlotBase(t[i]) * PAGE) && Table() == SlotAt(t, i) && freepages == old(freepages) - SLOT_PAGES
    {
      ghost var t := Table();
      var i := 0;
      while i < size && entries[i].base + entries[i].size * PAGE < ByteSlot(entries[i].base) + SLOT
        invariant 0 <= i <= size
        invariant forall j :: 0 <= j < i ==> !FitsSlot(t[j])
        modifies {}
      {
        assert entries[i] == Stored()[i];
        ByteSlotPages(entries[i]);
        i := i + 1;
      }
      if i == size {
        FirstSlotIs(t, i);
        return Panic;
      }
      assert entries[i] == Stored()[i];
      ByteSlotPages(entries[i]);
      FirstSlotIs(t, i);
      var b := ByteSlot(entries[i].base);
      if b != entries[i].base {
        if size + 1 > entries.Length {
          return Panic;
        }
        SplitAt(i, b);
      } else {
        CutAt(i, b);
      }
      freepages := freepages - SLOT / PAGE;
      return At(b);
    }

    /** The fragment starts at the slot. */
    method CutAt(i: nat, b: nat)
      requires Good() && i < size && FitsSlot(Table()[i])
      requires b == SlotBase(Table()[i]) * PAGE == entries[i].base
      modifies this`size, entries
      ensures Good() && Table() == SlotAt(old(Table()), i)
    {
      ghost var st, t := Stored(), Table();
      SlotValid(t, i);
      SlotArith(t[i]);
      PageSum(b, SLOT_PAGES);
      entries[i] := Entry(b + SLOT, entries[i].size - SLOT / PAGE);
      TableUpdate(st, i, entries[i]);
      assert Stored() == st[i := entries[i]] && ToFrag(entries[i]) == Tail(t[i]);
      if entries[i].size == 0 {
        TableDeleted(Stored(), i);
        ShiftDown(i);
        assert Deleted(t[i := Tail(t[i])], i) == Deleted(t, i);
      }
    }

    /** Entry `i` becomes two: the part before `b`, and the part behind the slot at `b`. */
    method Halve(i: nat, b: nat)
      requires i < size < entries.Length && entries[i].base <= b
      requires (b - entries[i].base) / PAGE + SLOT / PAGE <= entries[i].size
      modifies this`size, entries
      ensures size == old(size) + 1
      ensures var e := old(entries[i]);
              var n := (b - e.base) / PAGE;
              Stored() == old(Stored())[..i] + [Entry(e.base, n), Entry(b + SLOT, e.size - (n + SLOT / PAGE))] + old(Stored())[i + 1..]
    {
      ghost var st := Stored();
      ShiftUp(i);
      assert Stored()[i] == entries[i] == st[i] && Stored()[i + 1] == entries[i + 1] == st[i];
      var s := (b - entries[i].base) / PAGE;
      entries[i] := Entry(entries[i].base, s);
      entries[i + 1] := Entry(b + SLOT, entries[i + 1].size - (s + SLOT / PAGE));
      Halved(st, Stored(), i);
    }

    /** The fragment is split in two before the slot is taken from its second part. When that leaves
        nothing, the entry that is removed is `i`, the first part. */
    method SplitAt(i: nat, b: nat)
      requires Good() && i < size < entries.Length && FitsSlot(Table()[i])
      requires b == SlotBase(Table()[i]) * PAGE && entries[i].base < b
      modifies this`size, entries
      ensures Good() && Table() == SlotAt(old(Table()), i)
    {
      ghost var st, t := Stored(), Table();
      SlotValid(t, i);
      SlotArith(t[i]);
      assert st[i] == entries[i];
      ByteSlotPages(st[i]);
      PageSum(b, SLOT_PAGES);
      Halve(i, b);
      ghost var lead, tail := Stored()[i], Stored()[i + 1];
      assert ToFrag(lead) == Lead(t[i]) && ToFrag(tail) == Tail(t[i]);
      TableSplit(st, i, lead, tail);
      hide Valid;
      if entries[i + 1].size == 0 {
        TableDeleted(Stored(), i);
        ShiftDown(i);
        DeletedLead(t, i, Lead(t[i]), Tail(t[i]));
      }
    }

    /** The table must have room for the case that nothing can be merged. */
    method Free(base: nat, numpages: nat)
      requires Good() && base % PAGE == 0 && base / PAGE + numpages <= LIMIT
      requires forall x :: InRange(base / PAGE, numpages, x) ==> !IsFree(Table(), x)
      requires size < entries.Length || FirstTouching(Table(), base / PAGE, numpages) < size
      modifies this`size, this`freepages, entries
      ensures Good()
      ensures Table() == FreeTable(old(Table()), base / PAGE, numpages)
      ensures freepages == old(freepages) + numpages
    {
      var s := numpages * PAGE;
      FreeValid(Table(), base / PAGE, numpages);
      var i := FindTouching(base, numpages);
      if i < size {
        assert entries[i] == Stored()[i];
        TouchesBytes(entries[i], base, numpages);
        if entries[i].base == base + s {
          // the range ends where this fragment begins
          Store(i, Entry(base, entries[i].size + numpages));
        } else {
          // the fragment ends where the range begins
          Store(i, Entry(entries[i].base, entries[i].size + numpages));
        }
      } else {
        // the range touches no fragment
        Append(Entry(base, numpages));
      }
      freepages := freepages + numpages;
    }

    method FindTouching(base: nat, numpages: nat) returns (i: nat)
      requires Good() && base % PAGE == 0
      ensures i == FirstTouching(Table(), base / PAGE, numpages)
    {
      i := 0;
      while i < size && entries[i].base != base + numpages * PAGE && entries[i].base + entries[i].size * PAGE != base
        invariant 0 <= i <= size
        invariant forall j :: 0 <= j < i ==> !Touches(Table()[j], base / PAGE, numpages)
      {
        assert entries[i] == Stored()[i];
        TouchesBytes(entries[i], base, numpages);
        i := i + 1;
      }
      if i < size {
        assert entries[i] == Stored()[i];
        TouchesBytes(entries[i], base, numpages);
      }
      FirstTouchingIs(Table(), base / PAGE, numpages, i);
    }

    method Store(i: nat, e: Entry)
      requires i < size <= entries.Length && Aligned(Stored()) && e.base % PAGE == 0
      modifies entries
      ensures Table() == old(Table())[i := ToFrag(e)] && Aligned(Stored())
    {
      ghost var st := Stored();
      entries[i] := e;
      TableUpdate(st, i, e);
      assert Stored() == st[i := e];
    }

    method Append(e: Entry)
      requires size < entries.Length && Aligned(Stored()) && e.base % PAGE == 0
      modifies this`size, entries
      ensures size == old(size) + 1 && Table() == old(Table()) + [ToFrag(e)] && Aligned(Stored())
    {
      ghost var st := Stored();
      size := size + 1;
      entries[size - 1] := e;
      TableConcat(st, [e]);
      assert Stored() == st + [e];
      assert ToTable([e]) == [ToFrag(e)];
    }
  }

  lemma TableSplit(s: seq<Entry>, i: nat, a: Entry, b: Entry)
    requires i < |s|
    ensures ToTable(s[..i] + [a, b] + s[i + 1..]) == ToTable(s)[..i] + [ToFrag(a), ToFrag(b)] + ToTable(s)[i + 1..]
    ensures Aligned(s) && a.base % PAGE == 0 && b.base % PAGE == 0 ==> Aligned(s[..i] + [a, b] + s[i + 1..])
  {
    TableConcat(s[..i] + [a, b], s[i + 1..]);
    TableConcat(s[..i], [a, b]);
    TableSlice(s, 0, i);
    TableSlice(s, i + 1, |s|);
    assert ToTable([a, b]) == [ToFrag(a), ToFrag(b)];
  }

  lemma TouchesBytes(e: Entry, base: nat, n: nat)
    requires e.base % PAGE == 0 && base % PAGE == 0
    ensures e.base == base + n * PAGE <==> ToFrag(e).base == base / PAGE + n
    ensures e.base + e.size * PAGE == base <==> End(ToFrag(e)) == base / PAGE
  {
  }

  lemma PageSum(b: nat, n: nat)
    requires b % PAGE == 0
    ensures (b + n * PAGE) % PAGE == 0 && (b + n * PAGE) / PAGE == b / PAGE + n && b == b / PAGE * PAGE
  {
  }
}
