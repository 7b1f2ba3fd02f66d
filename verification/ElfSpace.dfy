/** What the task sees of the linker's work: its page tables lead from its own addresses to the places
    that were patched. */
module ElfSpace {
  import opened Options
  import opened ElfMemory
  import opened ElfTables
  import opened ElfLink
  import opened ElfLinker
  import Vmm = VmmTree

  /** The page table of the text segment. */
  const TEXT: Vmm.Place := (1, 1)

  /** The linker's list of pages is that table: it holds the address of every frame. */
  ghost predicate TextTable(pt: Vmm.Memory, root: nat, at: Vmm.Tables, pages: seq<Page>) {
    && Vmm.Tree(pt, root, at) && |pages| == PAGES
    && forall k :: 0 <= k < PAGES ==>
         Vmm.Read(pt, at, TEXT, k).Some? && pages[k].phys == Vmm.Read(pt, at, TEXT, k).value.frame * PAGE
  }

  /** Page `k` of the text segment is there for the task. */
  ghost predicate Loaded(pt: Vmm.Memory, at: Vmm.Tables, k: nat) {
    var e := Vmm.Read(pt, at, TEXT, k);
    e.Some? && e.value.flags.present && e.value.frame != 0
  }

  /** The physical address that the processor uses for a virtual one. */
  ghost function Translate(pt: Vmm.Memory, root: nat, va: nat): Option<nat> {
    match Vmm.Walk(pt, root, 4, va / PAGE)
    case None => None
    case Some(f) => Some(f * PAGE + va % PAGE)
  }

  lemma TextWalk(pt: Vmm.Memory, root: nat, at: Vmm.Tables, pages: seq<Page>, k: nat)
    requires TextTable(pt, root, at, pages) && k < PAGES && Loaded(pt, at, k)
    ensures Vmm.Walk(pt, root, 4, PAGES + k) == Some(pages[k].phys / PAGE) && pages[k].phys % PAGE == 0 && pages[k].phys > 0
  {
    hide Vmm.Tree;
    hide Vmm.Walk;
    hide Vmm.Read;
    hide Vmm.Lookup;
    Vmm.WalkIsLookup(pt, root, at, PAGES + k);
    Vmm.LookupReads(pt, root, at, PAGES + k);
  }

  // ---------- addresses inside an object ----------

  /** Byte `o` of the object at page `j`. */
  lemma ObjectByte(pt: Vmm.Memory, root: nat, at: Vmm.Tables, pages: seq<Page>, j: nat, o: nat)
    requires TextTable(pt, root, at, pages) && j + o / PAGE < PAGES && Loaded(pt, at, j + o / PAGE)
    ensures Translate(pt, root, Base(j) + o) == Some(pages[j + o / PAGE].phys + o % PAGE)
  {
    hide Vmm.Walk;
    var va := Base(j) + o;
    TextWalk(pt, root, at, pages, j + o / PAGE);
    hide TextTable;
    hide Loaded;
    assert va / PAGE == PAGES + j + o / PAGE && va % PAGE == o % PAGE;
  }

  /** The place that the linker patches is the one that the task has at the relocation's offset in its object. */
  lemma SlotSeen(pt: Vmm.Memory, root: nat, at: Vmm.Tables, pages: seq<Page>, r: Rela, j: nat)
    requires TextTable(pt, root, at, pages) && j + r.offset / PAGE < PAGES && Loaded(pt, at, j + r.offset / PAGE)
    ensures |pages| == PAGES && (r.offset + j * PAGE) / PAGE < PAGES && Slot(pages, r, j) > 0
    ensures Translate(pt, root, Base(j) + r.offset) == Some(Slot(pages, r, j))
  {
    hide Translate;
    ObjectByte(pt, root, at, pages, j, r.offset);
    TextWalk(pt, root, at, pages, j + r.offset / PAGE);
    hide TextTable;
    hide Loaded;
    assert (r.offset + j * PAGE) / PAGE == j + r.offset / PAGE && (r.offset + j * PAGE) % PAGE == r.offset % PAGE;
  }

  // ---------- words as the task loads them ----------

  /** `n` bytes from a virtual address on, each where its own page is. */
  ghost function Seen(pt: Vmm.Memory, root: nat, mem: Memory, va: nat, n: nat): Option<nat>
    decreases n
  {
    if n == 0 then Some(0)
    else
      var a, rest := Translate(pt, root, va), Seen(pt, root, mem, va + 1, n - 1);
      if a.Some? && rest.Some? then Some(ByteAt(mem, a.value) + 256 * rest.value) else None
  }

  /** The next `n` virtual bytes are physically in a row. */
  ghost predicate InRow(pt: Vmm.Memory, root: nat, va: nat, a: nat, n: nat) {
    forall x: nat :: va <= x < va + n ==> Translate(pt, root, x) == Some(a + x - va)
  }

  lemma {:induction false} SeenInRow(pt: Vmm.Memory, root: nat, mem: Memory, va: nat, a: nat, n: nat)
    requires InRow(pt, root, va, a, n)
    ensures Seen(pt, root, mem, va, n) == Some(Load(mem, a, n))
    decreases n
  {
    hide Translate;
    if n > 0 {
      SeenInRow(pt, root, mem, va + 1, a + 1, n - 1);
    }
  }

  /** A word does not reach into the next page, or the frame of that page follows. */
  ghost predicate Whole(pt: Vmm.Memory, root: nat, va: nat, a: nat) {
    va % PAGE <= PAGE - 8 || Vmm.Walk(pt, root, 4, va / PAGE + 1) == Some(a / PAGE + 1)
  }

  lemma ByteNear(pt: Vmm.Memory, root: nat, va: nat, a: nat, i: nat)
    requires Translate(pt, root, va) == Some(a) && Whole(pt, root, va, a) && i < 8
    ensures Translate(pt, root, va + i) == Some(a + i)
  {
    hide Vmm.Walk;
    var o := va % PAGE;
    assert va == va / PAGE * PAGE + o;
    if o + i < PAGE {
      assert (va + i) / PAGE == va / PAGE && (va + i) % PAGE == o + i;
    } else {
      assert (va + i) / PAGE == va / PAGE + 1 && (va + i) % PAGE == o + i - PAGE;
    }
  }

  lemma {:induction false} NotSeen(pt: Vmm.Memory, root: nat, mem: Memory, va: nat, n: nat)
    requires forall x: nat :: va <= x < va + n && Translate(pt, root, x).Some? ==> ByteAt(mem, Translate(pt, root, x).value) == 0
    ensures Seen(pt, root, mem, va, n) == None || Seen(pt, root, mem, va, n) == Some(0)
    decreases n
  {
    hide Translate;
    if n > 0 {
      NotSeen(pt, root, mem, va + 1, n - 1);
    }
  }

  /** A byte that is set shows in the word. */
  lemma {:induction false} OneByte(mem: Memory, a: nat, n: nat, b: nat)
    requires a <= b < a + n && ByteAt(mem, b) != 0
    ensures Load(mem, a, n) != 0
    decreases n
  {
    if b != a {
      OneByte(mem, a + 1, n - 1, b);
    }
  }

  /** A word that reaches into a page elsewhere: its last byte is not the one behind the others. */
  lemma LastElsewhere(pt: Vmm.Memory, root: nat, va: nat, a: nat, i: nat)
    requires Translate(pt, root, va) == Some(a) && !Whole(pt, root, va, a) && i < 8
    ensures Translate(pt, root, va + i) != Some(a + 7)
  {
    hide Vmm.Walk;
    var o := va % PAGE;
    assert va == va / PAGE * PAGE + o;
    if o + i < PAGE {
      assert (va + i) / PAGE == va / PAGE && (va + i) % PAGE == o + i;
    } else {
      assert (va + i) / PAGE == va / PAGE + 1 && (va + i) % PAGE == o + i - PAGE;
    }
  }

  /** The task loads what is at the physical place, whatever that is, exactly if the word does not reach into a page
      that is elsewhere. */
  lemma SeenIff(pt: Vmm.Memory, root: nat, va: nat, a: nat)
    requires Translate(pt, root, va) == Some(a)
    ensures Whole(pt, root, va, a) <==> forall mem: Memory :: Seen(pt, root, mem, va, 8) == Some(Word(mem, a) as nat)
  {
    hide Translate;
    if Whole(pt, root, va, a) {
      forall x: nat | va <= x < va + 8 ensures Translate(pt, root, x) == Some(a + x - va) {
        ByteNear(pt, root, va, a, x - va);
      }
      hide Seen;
      hide Load;
      forall mem: Memory ensures Seen(pt, root, mem, va, 8) == Some(Word(mem, a) as nat) {
        SeenInRow(pt, root, mem, va, a, 8);
      }
    } else {
      var mem: Memory := map[a + 7 := 1];
      hide Seen;
      hide Load;
      forall x: nat | va <= x < va + 8 && Translate(pt, root, x).Some?
        ensures ByteAt(mem, Translate(pt, root, x).value) == 0
      {
        LastElsewhere(pt, root, va, a, x - va);
      }
      NotSeen(pt, root, mem, va, 8);
      OneByte(mem, a, 8, a + 7);
    }
  }

  // ---------- which relocation an entry comes from ----------

  lemma {:induction false} EntriesGrow(pages: seq<Page>, j: nat, n: nat)
    requires WellFormed(pages) && j <= n <= PAGES
    ensures Entries(pages, j) <= Entries(pages, n)
    decreases n
  {
    hide WellFormed;
    hide PageEntries;
    if j < n {
      EntriesGrow(pages, j, n - 1);
    }
  }

  /** The entries of the object on page `j` come behind those of the pages before it. */
  lemma PageEntryAt(pages: seq<Page>, j: nat, m: nat, n: nat)
    requires WellFormed(pages) && j < n <= PAGES && m < |PageEntries(pages, j)|
    ensures |Entries(pages, j)| + m < |Entries(pages, n)|
    ensures Entries(pages, n)[|Entries(pages, j)| + m] == PageEntries(pages, j)[m]
  {
    hide WellFormed;
    hide PageEntries;
    EntriesGrow(pages, j + 1, n);
    assert Entries(pages, j + 1) == Entries(pages, j) + PageEntries(pages, j);
    hide Entries;
    assert Entries(pages, j + 1)[|Entries(pages, j)| + m] == PageEntries(pages, j)[m];
  }

  /** Relocation `m` of the object on page `j`: first those of its data, then those of its procedure linkage table. */
  predicate HasRela(pages: seq<Page>, j: nat, m: nat) {
    j < |pages| && pages[j].elf.Some? && m < |pages[j].elf.value.data| + |pages[j].elf.value.plt|
  }

  function RelaAt(pages: seq<Page>, j: nat, m: nat): Rela
    requires HasRela(pages, j, m)
  {
    var o := pages[j].elf.value;
    if m < |o.data| then o.data[m] else o.plt[m - |o.data|]
  }

  /** The symbol's name; relocations of data may have none. */
  function NameFor(pages: seq<Page>, j: nat, m: nat): string
    requires WellFormed(pages) && HasRela(pages, j, m)
  {
    assert RelaAt(pages, j, m) in pages[j].elf.value.data + pages[j].elf.value.plt;
    pages[j].elf.value.symbols[RelaAt(pages, j, m).sym].name
  }

  predicate Unnamed(pages: seq<Page>, j: nat, m: nat)
    requires WellFormed(pages) && HasRela(pages, j, m)
  {
    m < |pages[j].elf.value.data| && NameFor(pages, j, m) == ""
  }

  function IndexOf(pages: seq<Page>, j: nat, m: nat): nat
    requires WellFormed(pages) && HasRela(pages, j, m)
  {
    |Entries(pages, j)| + m
  }

  /** What the entry of a relocation has to be. */
  ghost predicate EntryFor(pages: seq<Page>, j: nat, m: nat, e: Entry)
    requires WellFormed(pages) && HasRela(pages, j, m)
  {
    && (RelaAt(pages, j, m).offset + j * PAGE) / PAGE < PAGES && e.slot == Slot(pages, RelaAt(pages, j, m), j)
    && if Unnamed(pages, j, m) then e.Plain? && e.base == Base(j) else e.Named? && e.name == NameFor(pages, j, m)
  }

  lemma RelaEntryHere(pages: seq<Page>, j: nat, m: nat)
    requires WellFormed(pages) && HasRela(pages, j, m)
    ensures j < PAGES && m < |PageEntries(pages, j)| && EntryFor(pages, j, m, PageEntries(pages, j)[m])
  {
    hide Slot;
    var o := pages[j].elf.value;
    assert RelaAt(pages, j, m) in o.data + o.plt;
  }

  lemma RelaEntry(pages: seq<Page>, j: nat, m: nat)
    requires WellFormed(pages) && HasRela(pages, j, m)
    ensures IndexOf(pages, j, m) < |Entries(pages, PAGES)|
    ensures EntryFor(pages, j, m, Entries(pages, PAGES)[IndexOf(pages, j, m)])
  {
    hide *;
    RelaEntryHere(pages, j, m);
    PageEntryAt(pages, j, m, PAGES);
    IndexIs(pages, j, m);
  }

  lemma IndexIs(pages: seq<Page>, j: nat, m: nat)
    requires WellFormed(pages) && HasRela(pages, j, m)
    ensures IndexOf(pages, j, m) == |Entries(pages, j)| + m
  {
  }

  // ---------- what the task finds ----------

  /** What the task loads from the relocation's place: the address of the first definition of its name, or what was
      there before, with the base of the object added if it has no name. */
  ghost predicate FindsRight(pages: seq<Page>, j: nat, m: nat, was: Option<nat>, now: Option<nat>)
    requires WellFormed(pages) && HasRela(pages, j, m)
  {
    if Unnamed(pages, j, m) then was.Some? && now == Some(AddWord(was.value, Base(j)) as nat)
    else if Defined(pages, NameFor(pages, j, m)) then
      exists p: nat, q: nat ::
        First(pages, NameFor(pages, j, m), p, q, PAGES, 0) && now == Some(AddressAt(pages, p, q) as nat)
    else now == was
  }

  /** Relocation `m` of page `j` is recorded or done, and no other one touches its place. */
  ghost predicate Settled(pages: seq<Page>, j: nat, m: nat)
    requires WellFormed(pages) && HasRela(pages, j, m)
  {
    var es, i := Entries(pages, PAGES), IndexOf(pages, j, m);
    i < |es| && Taken(es, i) && Alone(es, i)
  }

  lemma WordSeen(pt: Vmm.Memory, root: nat, mem: Memory, va: nat, a: nat)
    requires Translate(pt, root, va) == Some(a) && Whole(pt, root, va, a)
    ensures Seen(pt, root, mem, va, 8) == Some(Word(mem, a) as nat)
  {
    hide *;
    SeenIff(pt, root, va, a);
  }

  /** The task finds every relocation done at its own address, in the page tables that the linker worked on. */
  lemma RelocationSeen(pt: Vmm.Memory, root: nat, at: Vmm.Tables, pages: seq<Page>, mem: Memory, j: nat, m: nat)
    requires WellFormed(pages) && TextTable(pt, root, at, pages) && HasRela(pages, j, m) && Settled(pages, j, m)
    requires j + RelaAt(pages, j, m).offset / PAGE < PAGES && Loaded(pt, at, j + RelaAt(pages, j, m).offset / PAGE)
    requires var r := RelaAt(pages, j, m);
             (r.offset + j * PAGE) / PAGE < PAGES && Whole(pt, root, Base(j) + r.offset, Slot(pages, r, j))
    ensures var va := Base(j) + RelaAt(pages, j, m).offset;
            FindsRight(pages, j, m, Seen(pt, root, mem, va, 8), Seen(pt, root, Linked(pages, mem).mem, va, 8))
  {
    hide *;
    var r, i := RelaAt(pages, j, m), IndexOf(pages, j, m);
    var va, after := Base(j) + r.offset, Linked(pages, mem).mem;
    SettledAt(pages, j, m);
    RelaSlot(pages, j, m);
    SlotSeen(pt, root, at, pages, r, j);
    WordSeen(pt, root, mem, va, Slot(pages, r, j));
    WordSeen(pt, root, after, va, Slot(pages, r, j));
    SlotLinked(pages, mem, i);
    RightThere(pages, j, m, mem, after);
  }

  lemma RelaSlot(pages: seq<Page>, j: nat, m: nat)
    requires WellFormed(pages) && HasRela(pages, j, m)
    ensures |pages| == PAGES && (RelaAt(pages, j, m).offset + j * PAGE) / PAGE < PAGES
    ensures IndexOf(pages, j, m) < |Entries(pages, PAGES)|
    ensures Entries(pages, PAGES)[IndexOf(pages, j, m)].slot == Slot(pages, RelaAt(pages, j, m), j)
  {
    hide Entries;
    hide Slot;
    RelaEntry(pages, j, m);
  }

  lemma SettledAt(pages: seq<Page>, j: nat, m: nat)
    requires WellFormed(pages) && HasRela(pages, j, m) && Settled(pages, j, m)
    ensures var es, i := Entries(pages, PAGES), IndexOf(pages, j, m); i < |es| && Taken(es, i) && Alone(es, i)
  {
  }

  lemma RightThere(pages: seq<Page>, j: nat, m: nat, before: Memory, after: Memory)
    requires WellFormed(pages) && HasRela(pages, j, m) && IndexOf(pages, j, m) < |Entries(pages, PAGES)|
    requires var e := Entries(pages, PAGES)[IndexOf(pages, j, m)]; e.slot > 0 && SlotRight(pages, before, after, e)
    ensures var e := Entries(pages, PAGES)[IndexOf(pages, j, m)];
            FindsRight(pages, j, m, Some(Word(before, e.slot) as nat), Some(Word(after, e.slot) as nat))
  {
    RelaEntry(pages, j, m);
    hide Entries;
    hide WellFormed;
    hide Word;
    hide Slot;
    hide First;
    hide Defined;
    hide AddressAt;
  }

  /** The address of a definition leads the task to the symbol itself. */
  lemma DefinitionSeen(pt: Vmm.Memory, root: nat, at: Vmm.Tables, pages: seq<Page>, p: nat, q: nat)
    requires TextTable(pt, root, at, pages) && Defines(pages, p, q)
    requires var value := pages[p].elf.value.symbols[q].value; p + value / PAGE < PAGES && Loaded(pt, at, p + value / PAGE)
    ensures var value := pages[p].elf.value.symbols[q].value;
            Translate(pt, root, AddressAt(pages, p, q)) == Some(pages[p + value / PAGE].phys + value % PAGE)
  {
    var value := pages[p].elf.value.symbols[q].value;
    ObjectByte(pt, root, at, pages, p, value);
    hide *;
    AddressBelow(p, value);
    AddressIs(pages, p, q);
  }

  lemma AddressBelow(p: nat, value: nat)
    requires p + value / PAGE < PAGES
    ensures (value + Base(p)) % WORD == Base(p) + value
  {
  }

  lemma AddressIs(pages: seq<Page>, p: nat, q: nat)
    requires Defines(pages, p, q)
    ensures AddressAt(pages, p, q) == (pages[p].elf.value.symbols[q].value + Base(p)) % WORD
  {
  }

  /** And the entry points that the task pops lead it to those of the objects. */
  lemma PointSeen(pt: Vmm.Memory, root: nat, at: Vmm.Tables, pages: seq<Page>, j: nat)
    requires TextTable(pt, root, at, pages) && j < PAGES && pages[j].elf.Some?
    requires var entry := pages[j].elf.value.entry; j + entry / PAGE < PAGES && Loaded(pt, at, j + entry / PAGE)
    ensures var entry := pages[j].elf.value.entry;
            Translate(pt, root, EntryPoint(pages, j)) == Some(pages[j + entry / PAGE].phys + entry % PAGE)
  {
    assert |pages| == PAGES;
    hide TextTable;
    hide Loaded;
    hide Translate;
    hide Base;
    ObjectByte(pt, root, at, pages, j, pages[j].elf.value.entry);
    AddressBelow(j, pages[j].elf.value.entry);
  }
}
