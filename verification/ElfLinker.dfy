/** `elf_rtlink` as it runs: in place, on the record buffer, the memory and the task's stack. */
module ElfLinker {
  import opened Options
  import opened ElfMemory
  import opened ElfTables
  import opened ElfLink

  datatype Outcome = Ready | Missing(name: string) | NoExecutor

  function EntryPoint(pages: seq<Page>, j: nat): nat
    requires j < |pages| && pages[j].elf.Some?
  {
    AddWord(pages[j].elf.value.entry, Base(j))
  }

  /** The entry points of the objects from page `j` on, in load order. */
  function Points(pages: seq<Page>, j: nat): seq<nat>
    requires j <= |pages|
    decreases |pages| - j
  {
    if j == |pages| then []
    else (if pages[j].elf.Some? then [EntryPoint(pages, j)] else []) + Points(pages, j + 1)
  }

  lemma {:induction false} PointsFewer(pages: seq<Page>, i: nat, j: nat)
    requires i <= j <= |pages|
    ensures |Points(pages, j)| <= |Points(pages, i)|
    decreases j - i
  {
    if i < j {
      PointsFewer(pages, i + 1, j);
    }
  }

  lemma PointsFrom(pages: seq<Page>, j: nat)
    requires j < |pages|
    ensures Points(pages, j) == (if pages[j].elf.Some? then [EntryPoint(pages, j)] else []) + Points(pages, j + 1)
    ensures |Points(pages, j)| == (if pages[j].elf.Some? then 1 else 0) + |Points(pages, j + 1)|
  {
    hide EntryPoint;
  }

  lemma NoPoints(pages: seq<Page>)
    ensures Points(pages, |pages|) == []
  {
  }

  /** A word has been put in front of a part of the stack. */
  lemma PushedSlice(s: seq<nat>, t: seq<nat>, lo: nat, hi: nat, w: nat)
    requires lo <= hi < |s| == |t| && t[lo] == w && forall k :: lo < k < |s| ==> t[k] == s[k]
    ensures t[lo..hi + 1] == [w] + s[lo + 1..hi + 1]
  {
  }

  /** There is an executable to start: an object on the first page with an entry point of its own. */
  predicate HasExecutor(pages: seq<Page>) {
    |pages| > 0 && pages[0].elf.Some? && pages[0].elf.value.phoff != pages[0].elf.value.entry
  }

  /** What the task pops off its stack when it starts. */
  function Pops(pages: seq<Page>): seq<nat>
    requires |pages| >= 2 && HasExecutor(pages)
  {
    Points(pages, 2) + [EntryPoint(pages, 0)]
  }

  /** The libraries are started in load order, and the executable last, exactly when no library begins
      on the second page: that page is not looked at. */
  lemma LoadOrderIff(pages: seq<Page>)
    requires |pages| >= 2 && HasExecutor(pages)
    ensures Pops(pages) == Points(pages, 1) + [EntryPoint(pages, 0)] <==> pages[1].elf.None?
  {
    if pages[1].elf.Some? {
      assert |Points(pages, 1)| == 1 + |Points(pages, 2)|;
    }
  }

  class Linker {
    const pages: seq<Page>
    const relas: array<Record>
    const stack: array<nat>
    var n: nat
    var mem: Memory
    /** Where the next word is pushed, as an index and as the task's own stack pointer. */
    var sp: int
    var rsp: int

    constructor (pages: seq<Page>, relas: array<Record>, stack: array<nat>, mem: Memory, sp: int, rsp: int)
      requires relas.Length == MOST_RECORDS
      ensures this.pages == pages && this.relas == relas && this.stack == stack
      ensures n == 0 && this.mem == mem && this.sp == sp && this.rsp == rsp
    {
      this.pages, this.relas, this.stack, this.n := pages, relas, stack, 0;
      this.mem, this.sp, this.rsp := mem, sp, rsp;
    }

    predicate Valid()
      reads this
    {
      relas.Length == MOST_RECORDS && n <= relas.Length && |pages| == PAGES && WellFormed(pages)
    }

    ghost function C(): Collected
      reads this, relas
      requires Valid()
    {
      Collected(relas[..n], mem)
    }

    method Add(slot: nat, name: string)
      requires Valid() && n < MOST_RECORDS
      modifies this`n, relas
      ensures Valid() && C() == Collect(old(C()), Named(slot, name))
    {
      relas[n] := Record(slot, name);
      n := n + 1;
      assert relas[..n] == old(relas[..n]) + [Record(slot, name)];
    }

    method CollectData(o: Object, j: nat)
      requires Valid() && j < PAGES && pages[j].elf == Some(o)
      modifies this`n, this`mem, relas
      ensures Valid() && C() == CollectAll(old(C()), DataEntries(pages, o, j))
    {
      ghost var es := DataEntries(pages, o, j);
      for i := 0 to |o.data|
        invariant Valid() && C() == CollectAll(old(C()), es[..i])
      {
        assert es[..i + 1][..i] == es[..i];
        assert es == es[..i] + es[i..];
        if n >= MOST_RECORDS {
          CollectConcat(old(C()), es[..i], es[i..]);
          CollectFull(C(), es[i..]);
          return;
        }
        var rela := o.data[i];
        assert rela in o.data;
        var po := Slot(pages, rela, j);
        var s := o.symbols[rela.sym];
        if s.name != "" {
          Add(po, s.name);
        } else {
          mem := Write(mem, po, AddWord(Word(mem, po), Base(j)));
        }
      }
      assert es[..|o.data|] == es;
    }

    method CollectPlt(o: Object, j: nat)
      requires Valid() && j < PAGES && pages[j].elf == Some(o)
      modifies this`n, this`mem, relas
      ensures Valid() && C() == CollectAll(old(C()), PltEntries(pages, o, j))
    {
      ghost var es := PltEntries(pages, o, j);
      for i := 0 to |o.plt|
        invariant Valid() && C() == CollectAll(old(C()), es[..i])
      {
        assert es[..i + 1][..i] == es[..i];
        assert es == es[..i] + es[i..];
        if n >= MOST_RECORDS {
          CollectConcat(old(C()), es[..i], es[i..]);
          CollectFull(C(), es[i..]);
          return;
        }
        var rela := o.plt[i];
        assert rela in o.plt;
        Add(Slot(pages, rela, j), o.symbols[rela.sym].name);
      }
      assert es[..|o.plt|] == es;
    }

    /** The relocations of the object on page `j`, if there is one. */
    method CollectPage(j: nat)
      requires Valid() && j < PAGES
      modifies this`n, this`mem, relas
      ensures Valid() && C() == CollectAll(old(C()), PageEntries(pages, j))
    {
      hide DataEntries;
      hide PltEntries;
      hide ObjectOk;
      ghost var before := C();
      NothingCollected(before);
      hide CollectAll;
      if pages[j].elf.Some? {
        var o := pages[j].elf.value;
        CollectData(o, j);
        CollectPlt(o, j);
        CollectConcat(before, DataEntries(pages, o, j), PltEntries(pages, o, j));
      }
    }

    method CollectPages()
      requires Valid()
      modifies this`n, this`mem, relas
      ensures Valid() && C() == CollectAll(old(C()), Entries(pages, PAGES))
    {
      hide CollectAll;
      hide PageEntries;
      hide ObjectOk;
      ghost var c := C();
      NothingCollected(c);
      for j := 0 to PAGES
        invariant Valid() && C() == CollectAll(c, Entries(pages, j))
      {
        CollectPage(j);
        CollectConcat(c, Entries(pages, j), PageEntries(pages, j));
      }
    }

    /** All records that wait for this name. */
    method PatchRecords(d: Def)
      requires Valid()
      modifies this`mem, relas
      ensures Valid() && C() == Patch(old(C()), d, n)
    {
      for k := 0 to n
        invariant Valid() && C() == Patch(old(C()), d, k)
      {
        var r := relas[k];
        if r.offs != 0 && r.sym == d.name {
          mem := Write(mem, r.offs, d.address);
          relas[k] := r.(offs := 0);
        }
      }
    }
  
    /** One symbol that is read. */
    method ResolveSymbol(o: Object, j: nat, i: nat)
      requires Valid() && j < PAGES && pages[j].elf == Some(o) && i < Readable(o, 0)
      modifies this`mem, relas
      ensures Valid() && C() == Resolve(old(C()), DefAt(pages, j, i))
    {
      hide WellFormed;
      var s := o.symbols[i];
      if s.value != 0 {
        var d := Def(s.name, AddWord(s.value, Base(j)));
        assert DefAt(pages, j, i) == [d];
        assert [d][..0] == [];
        PatchRecords(d);
      }
    }

    /** All definitions of one object. */
    method ResolvePage(o: Object, j: nat)
      requires Valid() && j < PAGES && pages[j].elf == Some(o)
      modifies this`mem, relas
      ensures Valid() && C() == Resolve(old(C()), PageDefs(pages, j, Readable(o, 0)))
    {
      hide WellFormed;
      hide DefAt;
      hide Resolve;
      ghost var c := C();
      NothingResolved(c);
      var i := 0;
      while i < |o.symbols|
        invariant 0 <= i <= |o.symbols| && Readable(o, 0) == Readable(o, i)
        invariant Valid() && C() == Resolve(c, PageDefs(pages, j, i))
      {
        if o.symbols[i].at > o.strsz {
          break;
        }
        assert Readable(o, i) == Readable(o, i + 1);
        ResolveSymbol(o, j, i);
        ResolveConcat(c, PageDefs(pages, j, i), DefAt(pages, j, i));
        i := i + 1;
      }
    }

    method ResolvePages()
      requires Valid()
      modifies this`mem, relas
      ensures Valid() && C() == Resolve(old(C()), Defs(pages, PAGES))
    {
      hide WellFormed;
      hide PageDefs;
      ghost var c := C();
      for j := 0 to PAGES
        invariant Valid() && |pages| == PAGES && C() == Resolve(c, Defs(pages, j))
      {
        if pages[j].elf.Some? {
          var o := pages[j].elf.value;
          ResolvePage(o, j);
          ResolveConcat(c, Defs(pages, j), PageDefs(pages, j, Readable(o, 0)));
        } else {
          assert Defs(pages, j + 1) == Defs(pages, j);
        }
      }
    }

    /** The first record that is still waiting, if any. */
    method Check() returns (missing: Option<string>)
      requires Valid()
      ensures missing.None? <==> AllResolved(C().recs)
      ensures missing.Some? ==> exists k :: 0 <= k < n && relas[k].offs != 0 && relas[k].sym == missing.value
    {
      for i := 0 to n
        invariant forall k :: 0 <= k < i ==> relas[k].offs == 0
      {
        if relas[i].offs != 0 {
          assert !AllResolved(C().recs) by {
            assert C().recs[i].offs != 0;
          }
          return Some(relas[i].sym);
        }
      }
      return None;
    }

    method Push(w: nat)
      requires 0 <= sp < stack.Length
      modifies this`sp, this`rsp, stack
      ensures sp == old(sp) - 1 && rsp == old(rsp) - 8
      ensures forall k :: 0 <= k < stack.Length && k != old(sp) ==> stack[k] == old(stack[k])
      ensures stack[old(sp)] == w
    {
      stack[sp] := w;
      sp := sp - 1;
      rsp := rsp - 8;
    }

    /** The executable's entry point first, then those of the libraries from the last page down. */
    method PushEntries()
      requires |pages| == PAGES && HasExecutor(pages) && |Points(pages, 2)| <= sp < stack.Length
      modifies this`sp, this`rsp, stack
      ensures -1 <= sp <= old(sp) && stack[sp + 1..old(sp) + 1] == Pops(pages)
      ensures rsp == old(rsp) - 8 * |Pops(pages)|
      ensures forall k :: 0 <= k < stack.Length && !(sp < k <= old(sp)) ==> stack[k] == old(stack[k])
    {
      hide EntryPoint;
      ghost var top := sp;
      NoPoints(pages);
      hide Points;
      Push(EntryPoint(pages, 0));
      var j := PAGES - 1;
      PushedSlice(old(stack[..]), stack[..], sp + 1, top, EntryPoint(pages, 0));
      while j > 1
        invariant 1 <= j < PAGES && -1 <= sp == top - 1 - |Points(pages, j + 1)|
        invariant stack[sp + 1..top + 1] == Points(pages, j + 1) + [EntryPoint(pages, 0)]
        invariant rsp == old(rsp) - 8 * (|Points(pages, j + 1)| + 1)
        invariant forall k :: 0 <= k < stack.Length && !(sp < k <= top) ==> stack[k] == old(stack[k])
      {
        ghost var before := stack[..];
        PointsFewer(pages, 2, j);
        PointsFrom(pages, j);
        if pages[j].elf.Some? {
          Push(EntryPoint(pages, j));
          PushedSlice(before, stack[..], sp + 1, top, EntryPoint(pages, j));
        }
        j := j - 1;
      }
    }

    /** Collecting and resolving. */
    method Bind()
      requires Valid() && n == 0
      modifies this`n, this`mem, relas
      ensures Valid() && C() == Linked(pages, old(mem))
    {
      hide WellFormed;
      hide CollectAll;
      hide Resolve;
      assert C() == Collected([], mem);
      CollectPages();
      ResolvePages();
    }

    /** `elf_rtlink`. */
    method Link() returns (r: Outcome)
      requires Valid() && n == 0 && |Points(pages, 2)| <= sp < stack.Length
      modifies this`n, this`mem, this`sp, this`rsp, relas, stack
      ensures Valid() && C() == Linked(pages, old(mem))
      ensures r.Missing? <==> !AllResolved(C().recs)
      ensures r.Missing? ==> exists k :: 0 <= k < n && C().recs[k].offs != 0 && C().recs[k].sym == r.name
      ensures r.NoExecutor? <==> AllResolved(C().recs) && !HasExecutor(pages)
      ensures r.Ready? ==> -1 <= sp <= old(sp) && stack[sp + 1..old(sp) + 1] == Pops(pages)
      ensures r.Ready? ==> rsp == old(rsp) - 8 * |Pops(pages)|
    {
      hide WellFormed;
      hide Linked;
      hide Pops;
      hide AllResolved;
      Bind();
      var missing := Check();
      if missing.Some? {
        ghost var k :| 0 <= k < n && relas[k].offs != 0 && relas[k].sym == missing.value;
        assert C().recs[k] == relas[k];
        return Missing(missing.value);
      }
      if pages[0].elf.None? || pages[0].elf.value.phoff == pages[0].elf.value.entry {
        return NoExecutor;
      }
      PushEntries();
      return Ready;
    }
  }
}
