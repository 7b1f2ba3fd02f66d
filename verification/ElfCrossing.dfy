/** A relocation whose word reaches into the next page: the linker patches it in one piece, although the
    two pages of the task need not be neighbours. */
module ElfCrossing {
  import opened Options
  import opened ElfMemory
  import opened ElfTables
  import opened ElfLink
  import opened ElfSpace
  import Vmm = VmmTree

  // ---------- page tables with two pages of text ----------

  const ON := Vmm.NOFLAGS.(present := true, write := true)

  function Root(): Vmm.Memory {
    map[1 := Vmm.Zeros()]
  }

  function Upper(): Vmm.Memory {
    Vmm.Link(Vmm.Link(Vmm.Link(Root(), 1, 0, 2, ON), 2, 0, 3, ON), 3, 1, 4, ON)
  }

  /** The second and the third page of the text segment. */
  function Space(f: nat, g: nat): Vmm.Memory {
    Vmm.Write(Vmm.Write(Upper(), 4, 1, Vmm.Entry(f, ON)), 4, 2, Vmm.Entry(g, ON))
  }

  const AT: Vmm.Tables := map[(4, 0) := 1, (3, 0) := 2, (2, 0) := 3, (1, 1) := 4]

  lemma RootTree()
    ensures Vmm.Tree(Root(), 1, map[(4, 0) := 1])
  {
    var at: Vmm.Tables := map[(4, 0) := 1];
    assert Vmm.PlaceOk(Root(), at, (4, 0));
    forall i | 0 <= i < 512 ensures Vmm.EntryOk(Root(), at, (4, 0), i) {
    }
  }

  lemma UpperTree()
    ensures Vmm.Tree(Upper(), 1, AT) && 4 in Upper() && Upper()[4] == Vmm.Zeros()
  {
    hide Vmm.Tree;
    RootTree();
    var a: Vmm.Tables := map[(4, 0) := 1];
    var m := Root();
    Vmm.LinkTree(m, 1, a, (4, 0), 0, 2, ON);
    var b, n := a[(3, 0) := 2], Vmm.Link(m, 1, 0, 2, ON);
    Vmm.LinkTree(n, 1, b, (3, 0), 0, 3, ON);
    var c, o := b[(2, 0) := 3], Vmm.Link(n, 2, 0, 3, ON);
    Vmm.LinkTree(o, 1, c, (2, 0), 1, 4, ON);
    assert c[(1, 1) := 4] == AT;
  }

  lemma SpaceTree(f: nat, g: nat)
    ensures Vmm.Tree(Space(f, g), 1, AT) && 4 in Space(f, g)
    ensures Space(f, g)[4] == Vmm.Zeros()[1 := Vmm.Entry(f, ON)][2 := Vmm.Entry(g, ON)]
  {
    hide Vmm.Tree;
    UpperTree();
    hide Upper;
    var k: Vmm.Place := (1, 1);
    Vmm.LeafTree(Upper(), 1, AT, k, 1, Vmm.Entry(f, ON));
    Vmm.LeafTree(Vmm.Write(Upper(), 4, 1, Vmm.Entry(f, ON)), 1, AT, k, 2, Vmm.Entry(g, ON));
  }

  // ---------- an object on the second page ----------

  /** It defines a name, and has one relocation, half of it on the next page. */
  function Half(x: nat): Object {
    Object([Symbol(1, "f", x)], 2, [Rela(PAGE - 4, 0)], [], 0, 0)
  }

  function Two(f: nat, g: nat, x: nat): (pages: seq<Page>)
    ensures |pages| == PAGES
  {
    seq(PAGES, j => if j == 1 then Page(f * PAGE, Some(Half(x))) else if j == 2 then Page(g * PAGE, None) else Page(0, None))
  }

  lemma TwoTable(f: nat, g: nat, x: nat)
    ensures TextTable(Space(f, g), 1, AT, Two(f, g, x))
    ensures f > 0 ==> Loaded(Space(f, g), AT, 1)
    ensures g > 0 ==> Loaded(Space(f, g), AT, 2)
  {
    hide Vmm.Tree;
    SpaceTree(f, g);
    hide Space;
  }

  lemma TwoRela(f: nat, g: nat, x: nat)
    ensures var pages := Two(f, g, x); WellFormed(pages) && HasRela(pages, 1, 0) && RelaAt(pages, 1, 0) == Rela(PAGE - 4, 0)
    ensures PageEntries(Two(f, g, x), 1) == [Named(f * PAGE + PAGE - 4, "f")]
  {
    var pages := Two(f, g, x);
    var o := Half(x);
    assert ObjectOk(o, 1);
    assert DataEntries(pages, o, 1) == [Named(f * PAGE + PAGE - 4, "f")];
    assert PltEntries(pages, o, 1) == [];
  }

  lemma {:induction false} TwoEntries(f: nat, g: nat, x: nat, n: nat)
    requires WellFormed(Two(f, g, x)) && 2 <= n <= PAGES
    ensures Entries(Two(f, g, x), 1) == []
    ensures Entries(Two(f, g, x), n) == [Named(f * PAGE + PAGE - 4, "f")]
    decreases n
  {
    hide WellFormed;
    TwoRela(f, g, x);
    var pages := Two(f, g, x);
    assert Entries(pages, 0) == [] && PageEntries(pages, 0) == [];
    assert Entries(pages, 1) == Entries(pages, 0) + PageEntries(pages, 0);
    if n == 2 {
      assert Entries(pages, 2) == Entries(pages, 1) + PageEntries(pages, 1);
    } else {
      TwoEntries(f, g, x, n - 1);
      assert PageEntries(pages, n - 1) == [];
      assert Entries(pages, n) == Entries(pages, n - 1) + [];
    }
  }

  lemma TwoDefines(f: nat, g: nat, x: nat, j: nat, i: nat)
    requires x > 0
    ensures Defines(Two(f, g, x), j, i) <==> j == 1 && i == 0
    ensures j == 1 && i == 0 ==> NameAt(Two(f, g, x), j, i) == "f" && AddressAt(Two(f, g, x), j, i) == (x + Base(1)) % WORD
  {
    assert Readable(Half(x), 1) == 1 && Readable(Half(x), 0) == 1;
  }

  /** The word in physical memory gets the address of the symbol. */
  lemma TwoLinked(f: nat, g: nat, x: nat, mem: Memory)
    requires f > 0 && x > 0 && WellFormed(Two(f, g, x))
    ensures Settled(Two(f, g, x), 1, 0)
    ensures Word(Linked(Two(f, g, x), mem).mem, f * PAGE + PAGE - 4) == (x + Base(1)) % WORD
  {
    var pages := Two(f, g, x);
    TwoRela(f, g, x);
    TwoEntries(f, g, x, PAGES);
    hide Two;
    hide Entries;
    hide Linked;
    hide Word;
    hide WellFormed;
    var es := Entries(pages, PAGES);
    assert es[..0] == [];
    SlotLinked(pages, mem, 0);
    forall j: nat, i: nat ensures Defines(pages, j, i) <==> j == 1 && i == 0 {
      TwoDefines(f, g, x, j, i);
    }
    TwoDefines(f, g, x, 1, 0);
    hide Defines;
    hide AddressAt;
    assert Defined(pages, "f");
  }

  lemma {:induction false} SeenTop(pt: Vmm.Memory, root: nat, mem: Memory, va: nat, n: nat, a: nat)
    requires Translate(pt, root, va + n) == Some(a) && ByteAt(mem, a) > 0 && Seen(pt, root, mem, va, n + 1).Some?
    ensures Seen(pt, root, mem, va, n + 1).value >= ElfMemory.Space(n)
    decreases n
  {
    hide Translate;
    if n > 0 {
      SeenTop(pt, root, mem, va + 1, n - 1, a);
    }
  }

  lemma TopByte()
    ensures ElfMemory.Space(7) == 0x100_0000_0000_0000
  {
    assert ElfMemory.Space(4) == 0x1_0000_0000;
  }

  /** The byte that the task has there is not touched. */
  lemma ByteKept(f: nat, g: nat, x: nat, mem: Memory)
    requires g != f + 1 && WellFormed(Two(f, g, x))
    ensures ByteAt(Linked(Two(f, g, x), mem).mem, g * PAGE + 3) == ByteAt(mem, g * PAGE + 3)
  {
    hide WellFormed;
    hide Two;
    hide Linked;
    hide Entries;
    TwoEntries(f, g, x, PAGES);
    ElsewhereLinked(Two(f, g, x), mem, g * PAGE + 3);
  }

  lemma LastByte(f: nat, g: nat, x: nat)
    requires f > 0 && g > 0
    ensures Translate(Space(f, g), 1, Base(1) + PAGE - 4 + 7) == Some(g * PAGE + 3)
  {
    TwoTable(f, g, x);
    hide TextTable;
    hide Loaded;
    hide Space;
    hide Translate;
    ObjectByte(Space(f, g), 1, AT, Two(f, g, x), 1, PAGE + 3);
  }

  /** And the task does not find it there, unless the frame of the next page happens to follow. */
  lemma CrossingExample(f: nat, g: nat, x: nat)
    requires f > 0 && g > 0 && g != f + 1 && 0 < x < 0x10_0000
    ensures var pages, mem, va := Two(f, g, x), map[g * PAGE + 3 := 1], Base(1) + PAGE - 4;
            && WellFormed(pages) && TextTable(Space(f, g), 1, AT, pages)
            && Loaded(Space(f, g), AT, 1) && Loaded(Space(f, g), AT, 2)
            && HasRela(pages, 1, 0) && RelaAt(pages, 1, 0).offset == PAGE - 4 && Settled(pages, 1, 0)
            && Word(Linked(pages, mem).mem, f * PAGE + PAGE - 4) == x + Base(1)
            && Seen(Space(f, g), 1, Linked(pages, mem).mem, va, 8) != Some(x + Base(1))
  {
    hide Two;
    hide Space;
    hide Linked;
    hide Word;
    hide Seen;
    hide Translate;
    hide WellFormed;
    hide TextTable;
    hide Loaded;
    hide Settled;
    hide HasRela;
    hide RelaAt;
    hide PageEntries;
    var mem: Memory := map[g * PAGE + 3 := 1];
    TwoTable(f, g, x);
    TwoRela(f, g, x);
    TwoLinked(f, g, x, mem);
    LastByte(f, g, x);
    ByteKept(f, g, x, mem);
    if Seen(Space(f, g), 1, Linked(Two(f, g, x), mem).mem, Base(1) + PAGE - 4, 8) == Some(x + Base(1)) {
      SeenTop(Space(f, g), 1, Linked(Two(f, g, x), mem).mem, Base(1) + PAGE - 4, 7, g * PAGE + 3);
      TopByte();
    }
  }
}
