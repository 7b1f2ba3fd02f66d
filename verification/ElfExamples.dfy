/** Inputs on which the linker does not do what its tables ask for. */
module ElfExamples {
  import opened Options
  import opened ElfMemory
  import opened ElfTables
  import opened ElfLink

  // ---------- a relocation behind the last record ----------

  /** As many relocations with a name as there are records, and one without. */
  function Late(slot: nat, base: nat): (es: seq<Entry>)
    ensures |es| == MOST_RECORDS + 1
  {
    seq(MOST_RECORDS, i => Named(0, "f")) + [Plain(slot, base)]
  }

  lemma {:induction false} AllNamed(es: seq<Entry>)
    requires forall i :: 0 <= i < |es| ==> es[i].Named?
    ensures NamedCount(es) == |es|
  {
    if es != [] {
      AllNamed(es[..|es| - 1]);
    }
  }

  /** The last one does not have its base added. */
  lemma LateExample(mem: Memory, slot: nat, base: nat)
    requires slot >= 8 && 0 < base < WORD
    ensures !Complete(mem, Late(slot, base), CollectAll(Collected([], mem), Late(slot, base)))
  {
    hide CollectAll;
    hide Complete;
    var es := Late(slot, base);
    var fs := es[..|es| - 1];
    assert fs == seq(MOST_RECORDS, i => Named(0, "f"));
    AllNamed(fs);
    CollectIff(mem, es);
  }

  // ---------- two names at one place ----------

  /** A single object, at the beginning of the text segment. */
  function Single(phys: nat, o: Object): (pages: seq<Page>)
    ensures |pages| == PAGES
  {
    seq(PAGES, j => if j == 0 then Page(phys, Some(o)) else Page(0, None))
  }

  lemma {:induction false} OnlyFirst(pages: seq<Page>, n: nat)
    requires WellFormed(pages) && 1 <= n <= PAGES && forall j :: 1 <= j < PAGES ==> pages[j].elf.None?
    ensures Entries(pages, n) == PageEntries(pages, 0) && Defs(pages, n) == Defs(pages, 1)
  {
    hide ObjectOk;
    hide DataEntries;
    hide PltEntries;
    hide PageDefs;
    if n == 1 {
      assert Entries(pages, 0) == [];
    } else {
      OnlyFirst(pages, n - 1);
      assert PageEntries(pages, n - 1) == [];
      assert Defs(pages, n) == Defs(pages, n - 1) + [];
    }
  }

  /** It defines two names, and has two relocations at its beginning that wait for them. */
  function Twofold(x: nat, y: nat): Object {
    Object([Symbol(1, "f", x), Symbol(3, "g", y)], 4, [Rela(0, 0), Rela(0, 1)], [], 0, 0)
  }

  lemma TwofoldEntries(phys: nat, x: nat, y: nat)
    ensures var pages := Single(phys, Twofold(x, y));
            WellFormed(pages) && Entries(pages, PAGES) == [Named(phys, "f"), Named(phys, "g")]
  {
    var o := Twofold(x, y);
    var pages := Single(phys, o);
    assert ObjectOk(o, 0);
    OnlyFirst(pages, PAGES);
    assert DataEntries(pages, o, 0) == [Named(phys, "f"), Named(phys, "g")];
    assert PltEntries(pages, o, 0) == [];
  }

  lemma TwofoldDefs(phys: nat, x: nat, y: nat)
    requires 0 < x < WORD - TEXT_ADDRESS && 0 < y < WORD - TEXT_ADDRESS
    ensures var pages := Single(phys, Twofold(x, y));
            Defs(pages, PAGES) == [Def("f", x + TEXT_ADDRESS), Def("g", y + TEXT_ADDRESS)]
  {
    var o := Twofold(x, y);
    var pages := Single(phys, o);
    TwofoldEntries(phys, x, y);
    OnlyFirst(pages, PAGES);
    assert Readable(o, 2) == 2 && Readable(o, 1) == 2 && Readable(o, 0) == 2;
    assert DefAt(pages, 0, 0) == [Def("f", x + TEXT_ADDRESS)];
    assert DefAt(pages, 0, 1) == [Def("g", y + TEXT_ADDRESS)];
    assert PageDefs(pages, 0, 1) == [Def("f", x + TEXT_ADDRESS)];
    assert PageDefs(pages, 0, 2) == [Def("f", x + TEXT_ADDRESS), Def("g", y + TEXT_ADDRESS)];
    assert Defs(pages, 0) == [];
  }

  lemma LastOfTwo(a: nat, v: Word64, w: Word64)
    ensures var rs, ds := [Record(a, "f"), Record(a, "g")], [Def("f", v), Def("g", w)];
            LastFor(rs, ds, a) == Some(w) && Find(ds, "f") == Some(v)
  {
    var rs, ds := [Record(a, "f"), Record(a, "g")], [Def("f", v), Def("g", w)];
    assert ds[..1] == [Def("f", v)];
    assert Find(ds[..1], "g") == None;
    assert rs[1].sym == "g" && WaitsAt(rs, 2, "g", a);
  }

  /** Both relocations are resolved, and the place does not have the address of the first name. */
  lemma SharedExample(mem: Memory, phys: nat, x: nat, y: nat)
    requires phys > 0 && 0 < x < WORD - TEXT_ADDRESS && 0 < y < WORD - TEXT_ADDRESS && x != y
    ensures var pages := Single(phys, Twofold(x, y));
            && WellFormed(pages) && Find(Defs(pages, PAGES), "f") == Some(x + TEXT_ADDRESS)
            && Word(Linked(pages, mem).mem, phys) == y + TEXT_ADDRESS
  {
    var pages := Single(phys, Twofold(x, y));
    TwofoldEntries(phys, x, y);
    TwofoldDefs(phys, x, y);
    LastOfTwo(phys, x + TEXT_ADDRESS, y + TEXT_ADDRESS);
    var es := Entries(pages, PAGES);
    assert Records(es) == [Record(phys, "f"), Record(phys, "g")] by {
      assert es[..1] == [Named(phys, "f")];
      assert es[..1][..0] == [];
      assert Records(es[..1]) == [Record(phys, "f")];
    }
    hide LastFor;
    hide Find;
    hide Linked;
    hide Defs;
    hide Word;
    PlaceHolds(pages, mem, phys);
  }
}
