/** What the run-time linker works on: the pages of a task's text segment, the dynamic tables of the
    objects loaded there, and the order in which relocations and definitions are met. */
module ElfTables {
  import opened Options
  import opened ElfMemory

  const PAGE := 4096
  const PAGES := 512
  const TEXT_ADDRESS := 0x20_0000

  /** Room for relocation records: two pages, at sixteen bytes each. */
  const MOST_RECORDS := 512

  /** A symbol: where its name is in the string table, that name, and its value, zero if it is defined elsewhere. */
  datatype Symbol = Symbol(at: nat, name: string, value: nat)

  /** A relocation: the place to patch, relative to the object, and the index of its symbol. */
  datatype Rela = Rela(offset: nat, sym: nat)

  datatype Object = Object(symbols: seq<Symbol>, strsz: nat, data: seq<Rela>, plt: seq<Rela>, phoff: nat, entry: nat)

  /** A page of the text segment, and the object whose header is at its beginning, if any. */
  datatype Page = Page(phys: nat, elf: Option<Object>)

  predicate WellFormed(pages: seq<Page>) {
    |pages| == PAGES && forall j :: 0 <= j < PAGES && pages[j].elf.Some? ==> ObjectOk(pages[j].elf.value, j)
  }

  /** Relocations name symbols of the table, and patch places inside the text segment. */
  predicate ObjectOk(o: Object, j: nat) {
    && (forall r :: r in o.data ==> RelaOk(r, o, j))
    && (forall r :: r in o.plt ==> RelaOk(r, o, j))
  }

  predicate RelaOk(r: Rela, o: Object, j: nat) {
    r.sym < |o.symbols| && (r.offset + j * PAGE) / PAGE < PAGES
  }

  function Base(j: nat): nat {
    TEXT_ADDRESS + j * PAGE
  }

  /** The physical place of a relocation: the text segment is not mapped yet. */
  function Slot(pages: seq<Page>, r: Rela, j: nat): nat
    requires |pages| == PAGES && (r.offset + j * PAGE) / PAGE < PAGES
  {
    var v := r.offset + j * PAGE;
    pages[v / PAGE].phys + v % PAGE
  }

  // ---------- relocations, in the order they are met ----------

  /** A relocation waits for a symbol, or has its object's base added. */
  datatype Entry = Named(slot: nat, name: string) | Plain(slot: nat, base: nat)

  function DataEntry(pages: seq<Page>, r: Rela, o: Object, j: nat): Entry
    requires |pages| == PAGES && RelaOk(r, o, j)
  {
    if o.symbols[r.sym].name != "" then Named(Slot(pages, r, j), o.symbols[r.sym].name)
    else Plain(Slot(pages, r, j), Base(j))
  }

  function PltEntry(pages: seq<Page>, r: Rela, o: Object, j: nat): Entry
    requires |pages| == PAGES && RelaOk(r, o, j)
  {
    Named(Slot(pages, r, j), o.symbols[r.sym].name)
  }

  function DataEntries(pages: seq<Page>, o: Object, j: nat): (s: seq<Entry>)
    requires |pages| == PAGES && ObjectOk(o, j)
    ensures |s| == |o.data|
  {
    seq(|o.data|, i requires 0 <= i < |o.data| => assert o.data[i] in o.data; DataEntry(pages, o.data[i], o, j))
  }

  function PltEntries(pages: seq<Page>, o: Object, j: nat): (s: seq<Entry>)
    requires |pages| == PAGES && ObjectOk(o, j)
    ensures |s| == |o.plt|
  {
    seq(|o.plt|, i requires 0 <= i < |o.plt| => assert o.plt[i] in o.plt; PltEntry(pages, o.plt[i], o, j))
  }

  function PageEntries(pages: seq<Page>, j: nat): seq<Entry>
    requires WellFormed(pages) && j < PAGES
  {
    if pages[j].elf.None? then []
    else DataEntries(pages, pages[j].elf.value, j) + PltEntries(pages, pages[j].elf.value, j)
  }

  /** The relocations of the first `j` pages. */
  function Entries(pages: seq<Page>, j: nat): seq<Entry>
    requires WellFormed(pages) && j <= PAGES
  {
    if j == 0 then [] else Entries(pages, j - 1) + PageEntries(pages, j - 1)
  }

  // ---------- definitions, in the order they are met ----------

  datatype Def = Def(name: string, address: Word64)

  /** The table is read up to the first name beyond the string table. */
  function Readable(o: Object, i: nat): (n: nat)
    requires i <= |o.symbols|
    ensures i <= n <= |o.symbols|
    decreases |o.symbols| - i
  {
    if i < |o.symbols| && o.symbols[i].at <= o.strsz then Readable(o, i + 1) else i
  }

  /** Symbol `i` of the object at page `j` is read, and defined there. */
  predicate Defines(pages: seq<Page>, j: nat, i: nat) {
    && j < |pages| && pages[j].elf.Some? && i < Readable(pages[j].elf.value, 0)
    && pages[j].elf.value.symbols[i].value != 0
  }

  function NameAt(pages: seq<Page>, j: nat, i: nat): string
    requires Defines(pages, j, i)
  {
    pages[j].elf.value.symbols[i].name
  }

  function AddressAt(pages: seq<Page>, j: nat, i: nat): Word64
    requires Defines(pages, j, i)
  {
    (pages[j].elf.value.symbols[i].value + Base(j)) % WORD
  }

  /** What symbol `i` of page `j` defines, if anything. */
  function DefAt(pages: seq<Page>, j: nat, i: nat): seq<Def> {
    if Defines(pages, j, i) then [Def(NameAt(pages, j, i), AddressAt(pages, j, i))] else []
  }

  /** Among the first `i` symbols of page `j`. */
  function PageDefs(pages: seq<Page>, j: nat, i: nat): seq<Def> {
    if i == 0 then [] else PageDefs(pages, j, i - 1) + DefAt(pages, j, i - 1)
  }

  /** Of the first `j` pages. */
  function Defs(pages: seq<Page>, j: nat): seq<Def>
    requires j <= |pages|
  {
    if j == 0 then []
    else Defs(pages, j - 1) +
         (if pages[j - 1].elf.Some? then PageDefs(pages, j - 1, Readable(pages[j - 1].elf.value, 0)) else [])
  }

  function Find(defs: seq<Def>, name: string): Option<Word64>
    decreases |defs|
  {
    if defs == [] then None
    else if defs[0].name == name then Some(defs[0].address)
    else Find(defs[1..], name)
  }

  lemma {:induction false} FindConcat(a: seq<Def>, b: seq<Def>, name: string)
    ensures Find(a + b, name) == if Find(a, name).Some? then Find(a, name) else Find(b, name)
    decreases |a|
  {
    if a == [] {
      assert a + b == b;
    } else if a[0].name != name {
      assert (a + b)[1..] == a[1..] + b;
      FindConcat(a[1..], b, name);
    }
  }

  /** The definition at page `j` and index `i` is met before page `k` and index `l`. */
  predicate Before(j: nat, i: nat, k: nat, l: nat) {
    j < k || (j == k && i < l)
  }

  /** A definition of `name`, met before page `k` and index `l`. */
  predicate Candidate(pages: seq<Page>, name: string, j: nat, i: nat, k: nat, l: nat) {
    Defines(pages, j, i) && Before(j, i, k, l) && NameAt(pages, j, i) == name
  }

  /** The first definition of `name`, in the order of pages and then of tables. */
  ghost predicate First(pages: seq<Page>, name: string, j: nat, i: nat, k: nat, l: nat) {
    && Candidate(pages, name, j, i, k, l)
    && forall p: nat, q: nat :: Candidate(pages, name, p, q, k, l) ==> !Before(p, q, j, i)
  }

  /** What a search before page `k` and index `l` has to find. */
  ghost predicate FindsFirst(pages: seq<Page>, name: string, found: Option<Word64>, k: nat, l: nat) {
    match found
    case None => forall j: nat, i: nat :: !Candidate(pages, name, j, i, k, l)
    case Some(a) => exists j: nat, i: nat :: First(pages, name, j, i, k, l) && a == AddressAt(pages, j, i)
  }

  lemma OneMore(pages: seq<Page>, name: string, j: nat, i: nat, k: nat, l: nat)
    ensures Candidate(pages, name, j, i, k, l + 1)
       <==> Candidate(pages, name, j, i, k, l) || (j == k && i == l && Defines(pages, k, l) && NameAt(pages, k, l) == name)
  {
  }

  /** One more symbol of the same table. */
  lemma NextSymbol(pages: seq<Page>, name: string, found: Option<Word64>, k: nat, l: nat)
    requires FindsFirst(pages, name, found, k, l)
    ensures FindsFirst(pages, name, if found.Some? then found else Find(DefAt(pages, k, l), name), k, l + 1)
  {
    var m := l + 1;
    forall j: nat, i: nat
      ensures Candidate(pages, name, j, i, k, m)
         ==> Candidate(pages, name, j, i, k, l) || (j == k && i == l && Defines(pages, k, l) && NameAt(pages, k, l) == name)
    {
      OneMore(pages, name, j, i, k, l);
    }
    if found.Some? {
      var j: nat, i: nat :| First(pages, name, j, i, k, l) && found.value == AddressAt(pages, j, i);
      assert First(pages, name, j, i, k, l + 1);
    } else if Defines(pages, k, l) && NameAt(pages, k, l) == name {
      assert First(pages, name, k, l, k, l + 1);
    } else {
      assert DefAt(pages, k, l) == [] || DefAt(pages, k, l)[1..] == [];
      assert Find(DefAt(pages, k, l), name) == None;
    }
  }

  /** At the end of a table, the next page. */
  lemma NextPage(pages: seq<Page>, name: string, found: Option<Word64>, k: nat, l: nat)
    requires FindsFirst(pages, name, found, k, l) && forall i: nat :: i >= l ==> !Defines(pages, k, i)
    ensures FindsFirst(pages, name, found, k + 1, 0)
  {
    var n := k + 1;
    forall j: nat, i: nat ensures Candidate(pages, name, j, i, n, 0) ==> Candidate(pages, name, j, i, k, l) {
    }
    if found.Some? {
      var j: nat, i: nat :| First(pages, name, j, i, k, l) && found.value == AddressAt(pages, j, i);
      assert First(pages, name, j, i, k + 1, 0);
    }
  }

  lemma {:induction false} TableFindsFirst(pages: seq<Page>, name: string, k: nat, l: nat)
    requires k < |pages| && FindsFirst(pages, name, Find(Defs(pages, k), name), k, 0)
    ensures FindsFirst(pages, name, Find(Defs(pages, k) + PageDefs(pages, k, l), name), k, l)
    decreases l
  {
    hide FindsFirst;
    hide Find;
    hide Defs;
    hide DefAt;
    if l == 0 {
      assert Defs(pages, k) + [] == Defs(pages, k);
    } else {
      TableFindsFirst(pages, name, k, l - 1);
      var a := Defs(pages, k) + PageDefs(pages, k, l - 1);
      NextSymbol(pages, name, Find(a, name), k, l - 1);
      FindConcat(a, DefAt(pages, k, l - 1), name);
      assert a + DefAt(pages, k, l - 1) == Defs(pages, k) + PageDefs(pages, k, l);
    }
  }

  /** Searching the definitions finds the first one in the order of pages and then of tables. */
  lemma {:induction false} SearchIsFirst(pages: seq<Page>, name: string, k: nat)
    requires k <= |pages|
    ensures FindsFirst(pages, name, Find(Defs(pages, k), name), k, 0)
  {
    if k > 0 {
      SearchIsFirst(pages, name, k - 1);
      if pages[k - 1].elf.Some? {
        var n := Readable(pages[k - 1].elf.value, 0);
        TableFindsFirst(pages, name, k - 1, n);
        NextPage(pages, name, Find(Defs(pages, k), name), k - 1, n);
      } else {
        assert Defs(pages, k) == Defs(pages, k - 1);
        NextPage(pages, name, Find(Defs(pages, k), name), k - 1, 0);
      }
    }
  }
}
