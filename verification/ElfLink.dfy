/** `elf_rtlink`: collecting the relocations of all loaded objects, resolving them against their
    symbols, and preparing the stack with their entry points. */
module ElfLink {
  import opened Options
  import opened ElfMemory
  import opened ElfTables

  /** A relocation that waits for a symbol; its place is zero once it is resolved. */
  datatype Record = Record(offs: nat, sym: string)

  /** Addition of 64-bit words. */
  function AddWord(w: nat, b: nat): Word64 {
    (w + b) % WORD
  }

  // ---------- collecting ----------

  datatype Collected = Collected(recs: seq<Record>, mem: Memory)

  function Collect(c: Collected, e: Entry): Collected {
    if |c.recs| >= MOST_RECORDS then c
    else match e
      case Named(slot, name) => c.(recs := c.recs + [Record(slot, name)])
      case Plain(slot, base) => c.(mem := Write(c.mem, slot, AddWord(Word(c.mem, slot), base)))
  }

  function CollectAll(c: Collected, es: seq<Entry>): Collected {
    if es == [] then c else Collect(CollectAll(c, es[..|es| - 1]), es[|es| - 1])
  }

  /** How many of the entries wait for a symbol. */
  function NamedCount(es: seq<Entry>): nat {
    if es == [] then 0 else NamedCount(es[..|es| - 1]) + if es[|es| - 1].Named? then 1 else 0
  }

  /** Nothing is left aside: no entry comes after the records have been filled. */
  predicate AllFit(es: seq<Entry>) {
    es == [] || NamedCount(es[..|es| - 1]) < MOST_RECORDS
  }

  /** Entry `i` is recorded or relocated: the records have not been filled before it. */
  predicate Taken(es: seq<Entry>, i: nat)
    requires i < |es|
  {
    NamedCount(es[..i]) < MOST_RECORDS
  }

  /** No other relocation touches the place of entry `i`. */
  ghost predicate Alone(es: seq<Entry>, i: nat)
    requires i < |es|
  {
    forall j :: 0 <= j < |es| && j != i ==> Far(es[j].slot, es[i].slot)
  }

  // ---------- resolving ----------

  predicate Waits(r: Record, d: Def) {
    r.offs != 0 && r.sym == d.name
  }

  /** All records that wait for a definition are patched with its address. */
  function Patch(c: Collected, d: Def, k: nat): Collected
    requires k <= |c.recs|
    ensures |Patch(c, d, k).recs| == |c.recs|
  {
    if k == 0 then c
    else
      var b := Patch(c, d, k - 1);
      var r := b.recs[k - 1];
      if Waits(r, d)
      then Collected(b.recs[k - 1 := r.(offs := 0)], Write(b.mem, r.offs, d.address))
      else b
  }

  function Resolve(c: Collected, ds: seq<Def>): (r: Collected)
    ensures |r.recs| == |c.recs|
  {
    if ds == [] then c else var b := Resolve(c, ds[..|ds| - 1]); Patch(b, ds[|ds| - 1], |b.recs|)
  }

  lemma {:induction false} ResolveConcat(c: Collected, a: seq<Def>, b: seq<Def>)
    ensures Resolve(c, a + b) == Resolve(Resolve(c, a), b)
    decreases |b|
  {
    hide Patch;
    if b == [] {
      assert a + b == a;
    } else {
      assert (a + b)[..|a + b| - 1] == a + b[..|b| - 1];
      ResolveConcat(c, a, b[..|b| - 1]);
    }
  }

  lemma NothingResolved(c: Collected)
    ensures Resolve(c, []) == c
  {
  }

  lemma {:induction false} PatchRecord(c: Collected, d: Def, k: nat, i: nat)
    requires k <= |c.recs| && i < |c.recs|
    ensures Patch(c, d, k).recs[i] == if i < k && Waits(c.recs[i], d) then c.recs[i].(offs := 0) else c.recs[i]
  {
    hide Write;
    if k > 0 {
      PatchRecord(c, d, k - 1, i);
      PatchRecord(c, d, k - 1, k - 1);
    }
  }

  /** No waiting record but `i` touches the word at `a`. */
  ghost predicate OnlyAt(recs: seq<Record>, i: nat, a: nat) {
    forall j :: 0 <= j < |recs| && j != i && recs[j].offs != 0 ==> Far(recs[j].offs, a)
  }

  lemma {:induction false} PatchWord(c: Collected, d: Def, k: nat, i: nat, a: nat)
    requires k <= |c.recs| && i < |c.recs| && OnlyAt(c.recs, i, a) && (c.recs[i].offs == 0 || c.recs[i].offs == a)
    ensures Word(Patch(c, d, k).mem, a) == if i < k && Waits(c.recs[i], d) then d.address else Word(c.mem, a)
  {
    hide Write;
    hide Word;
    if k > 0 {
      PatchWord(c, d, k - 1, i, a);
      PatchRecord(c, d, k - 1, k - 1);
      var b := Patch(c, d, k - 1);
      var r := c.recs[k - 1];
      if Waits(r, d) {
        if k - 1 == i {
          WriteWord(b.mem, a, d.address);
        } else {
          WriteFar(b.mem, r.offs, d.address, a);
        }
      }
    }
  }

  lemma {:induction false} PatchByte(c: Collected, d: Def, k: nat, x: nat)
    requires k <= |c.recs| && forall j :: 0 <= j < |c.recs| && c.recs[j].offs != 0 ==> !Inside(c.recs[j].offs, x)
    ensures ByteAt(Patch(c, d, k).mem, x) == ByteAt(c.mem, x)
  {
    hide Write;
    if k > 0 {
      PatchByte(c, d, k - 1, x);
      PatchRecord(c, d, k - 1, k - 1);
      if Waits(c.recs[k - 1], d) {
        WriteByte(Patch(c, d, k - 1).mem, c.recs[k - 1].offs, d.address, x);
      }
    }
  }

  lemma FindLast(ds: seq<Def>, d: Def, name: string)
    ensures Find(ds + [d], name) ==
            if Find(ds, name).Some? then Find(ds, name) else if d.name == name then Some(d.address) else None
  {
    FindConcat(ds, [d], name);
    assert [d][1..] == [];
  }

  /** What becomes of a record: resolved as soon as its name is defined. */
  lemma {:induction false} ResolveRecord(c: Collected, ds: seq<Def>, i: nat)
    requires i < |c.recs|
    ensures Resolve(c, ds).recs[i] == if Find(ds, c.recs[i].sym).Some? then c.recs[i].(offs := 0) else c.recs[i]
    decreases |ds|
  {
    if ds != [] {
      var es, d := ds[..|ds| - 1], ds[|ds| - 1];
      var b := Resolve(c, es);
      ResolveRecord(c, es, i);
      assert ds == es + [d];
      FindLast(es, d, c.recs[i].sym);
      PatchRecord(b, d, |b.recs|, i);
    }
  }

  /** What becomes of its place: it gets the address of the first definition of its name, or stays as it was. */
  lemma {:induction false} ResolveSettles(c: Collected, ds: seq<Def>, i: nat)
    requires i < |c.recs| && c.recs[i].offs != 0 && OnlyAt(c.recs, i, c.recs[i].offs)
    ensures Word(Resolve(c, ds).mem, c.recs[i].offs) ==
            match Find(ds, c.recs[i].sym) { case Some(w) => w case None => Word(c.mem, c.recs[i].offs) }
    decreases |ds|
  {
    hide Word;
    hide Far;
    if ds != [] {
      var es, d := ds[..|ds| - 1], ds[|ds| - 1];
      var b := Resolve(c, es);
      ResolveSettles(c, es, i);
      assert ds == es + [d];
      FindLast(es, d, c.recs[i].sym);
      forall j | 0 <= j < |c.recs| ensures b.recs[j].offs == 0 || b.recs[j] == c.recs[j] {
        ResolveRecord(c, es, j);
      }
      ResolveRecord(c, es, i);
      PatchWord(b, d, |b.recs|, i, c.recs[i].offs);
    }
  }

  /** Records for the same place as `a` have exactly that place. */
  ghost predicate SameOrFar(recs: seq<Record>, a: nat) {
    forall j :: 0 <= j < |recs| && recs[j].offs != 0 ==> recs[j].offs == a || Far(recs[j].offs, a)
  }

  ghost predicate WaitsAt(recs: seq<Record>, k: nat, name: string, a: nat)
    requires k <= |recs|
  {
    exists j :: 0 <= j < k && recs[j].offs == a && recs[j].sym == name
  }

  lemma {:induction false} PatchShared(c: Collected, d: Def, k: nat, a: nat)
    requires k <= |c.recs| && a != 0 && SameOrFar(c.recs, a)
    ensures Word(Patch(c, d, k).mem, a) == if WaitsAt(c.recs, k, d.name, a) then d.address else Word(c.mem, a)
  {
    hide Write;
    hide Word;
    if k > 0 {
      PatchShared(c, d, k - 1, a);
      PatchRecord(c, d, k - 1, k - 1);
      var b := Patch(c, d, k - 1);
      var r := c.recs[k - 1];
      if Waits(r, d) {
        if r.offs == a {
          WriteWord(b.mem, a, d.address);
        } else {
          WriteFar(b.mem, r.offs, d.address, a);
        }
      }
    }
  }

  /** The last definition that is the first one of a name waited for at `a`. */
  ghost function LastFor(recs: seq<Record>, ds: seq<Def>, a: nat): Option<Word64>
    decreases |ds|
  {
    if ds == [] then None
    else
      var es, d := ds[..|ds| - 1], ds[|ds| - 1];
      if Find(es, d.name).None? && WaitsAt(recs, |recs|, d.name, a) then Some(d.address) else LastFor(recs, es, a)
  }

  /** When several records wait at one place, the one whose first definition is met last decides. */
  lemma {:induction false} ResolveShared(c: Collected, ds: seq<Def>, a: nat)
    requires a != 0 && SameOrFar(c.recs, a)
    ensures Word(Resolve(c, ds).mem, a) ==
            match LastFor(c.recs, ds, a) { case Some(w) => w case None => Word(c.mem, a) }
    decreases |ds|
  {
    hide Word;
    hide Far;
    if ds != [] {
      var es, d := ds[..|ds| - 1], ds[|ds| - 1];
      var b := Resolve(c, es);
      ResolveShared(c, es, a);
      forall j | 0 <= j < |c.recs|
        ensures b.recs[j] == if Find(es, c.recs[j].sym).Some? then c.recs[j].(offs := 0) else c.recs[j]
      {
        ResolveRecord(c, es, j);
      }
      PatchShared(b, d, |b.recs|, a);
    }
  }

  /** A byte that belongs to the place of no waiting record stays as it was. */
  lemma {:induction false} ResolveElsewhere(c: Collected, ds: seq<Def>, x: nat)
    requires forall j :: 0 <= j < |c.recs| && c.recs[j].offs != 0 ==> !Inside(c.recs[j].offs, x)
    ensures ByteAt(Resolve(c, ds).mem, x) == ByteAt(c.mem, x)
    decreases |ds|
  {
    if ds != [] {
      var es := ds[..|ds| - 1];
      var b := Resolve(c, es);
      ResolveElsewhere(c, es, x);
      forall j | 0 <= j < |c.recs| ensures b.recs[j].offs == 0 || b.recs[j] == c.recs[j] {
        ResolveRecord(c, es, j);
      }
      PatchByte(b, ds[|ds| - 1], |b.recs|, x);
    }
  }

  // ---------- what collecting amounts to ----------

  /** The records of all entries that wait for a symbol. */
  function Records(es: seq<Entry>): (rs: seq<Record>)
    ensures |rs| == NamedCount(es)
  {
    if es == [] then []
    else
      var e := es[|es| - 1];
      Records(es[..|es| - 1]) + if e.Named? then [Record(e.slot, e.name)] else []
  }

  lemma {:induction false} CollectConcat(c: Collected, a: seq<Entry>, b: seq<Entry>)
    ensures CollectAll(c, a + b) == CollectAll(CollectAll(c, a), b)
    decreases |b|
  {
    if b == [] {
      assert a + b == a;
    } else {
      assert (a + b)[..|a + b| - 1] == a + b[..|b| - 1];
      CollectConcat(c, a, b[..|b| - 1]);
    }
  }

  lemma NothingCollected(c: Collected)
    ensures CollectAll(c, []) == c
  {
  }

  lemma {:induction false} CollectFull(c: Collected, es: seq<Entry>)
    requires |c.recs| >= MOST_RECORDS
    ensures CollectAll(c, es) == c
  {
    if es != [] {
      CollectFull(c, es[..|es| - 1]);
    }
  }

  lemma {:induction false} CollectCount(mem: Memory, es: seq<Entry>)
    ensures |CollectAll(Collected([], mem), es).recs| == if NamedCount(es) < MOST_RECORDS then NamedCount(es) else MOST_RECORDS
  {
    if es != [] {
      CollectCount(mem, es[..|es| - 1]);
    }
  }

  /** As many of them as there is room for. */
  function Kept(es: seq<Entry>): (rs: seq<Record>)
    ensures rs <= Records(es)
  {
    if |Records(es)| <= MOST_RECORDS then Records(es) else Records(es)[..MOST_RECORDS]
  }

  /** As many relocations with a name as fit are recorded, in order. */
  lemma {:induction false} CollectRecords(mem: Memory, es: seq<Entry>)
    ensures CollectAll(Collected([], mem), es).recs == Kept(es)
  {
    hide Write;
    if es != [] {
      CollectRecords(mem, es[..|es| - 1]);
      CollectCount(mem, es[..|es| - 1]);
    }
  }

  lemma {:induction false} CollectElsewhere(mem: Memory, es: seq<Entry>, x: nat)
    requires forall i :: 0 <= i < |es| && es[i].Plain? ==> !Inside(es[i].slot, x)
    ensures ByteAt(CollectAll(Collected([], mem), es).mem, x) == ByteAt(mem, x)
  {
    hide Write;
    hide Word;
    hide AddWord;
    if es != [] {
      var c, e := CollectAll(Collected([], mem), es[..|es| - 1]), es[|es| - 1];
      CollectElsewhere(mem, es[..|es| - 1], x);
      if e.Plain? {
        WriteByte(c.mem, e.slot, AddWord(Word(c.mem, e.slot), e.base), x);
      }
    }
  }

  lemma CollectFar(mem: Memory, es: seq<Entry>, a: nat)
    requires forall i :: 0 <= i < |es| && es[i].Plain? ==> Far(es[i].slot, a)
    ensures Word(CollectAll(Collected([], mem), es).mem, a) == Word(mem, a)
  {
    hide CollectAll;
    var m := CollectAll(Collected([], mem), es).mem;
    forall x: nat | Inside(a, x) ensures ByteAt(m, x) == ByteAt(mem, x) {
      CollectElsewhere(mem, es, x);
    }
    SameWord(m, mem, a);
  }

  /** One without a name has its object's base added once. */
  lemma {:induction false} CollectPlain(mem: Memory, es: seq<Entry>, i: nat)
    requires i < |es| && es[i].Plain? && Taken(es, i)
    requires forall j :: 0 <= j < |es| && j != i && es[j].Plain? ==> Far(es[j].slot, es[i].slot)
    ensures Word(CollectAll(Collected([], mem), es).mem, es[i].slot) == AddWord(Word(mem, es[i].slot), es[i].base)
  {
    hide Write;
    hide Word;
    hide AddWord;
    var fs, e := es[..|es| - 1], es[|es| - 1];
    var c := CollectAll(Collected([], mem), fs);
    CollectCount(mem, fs);
    if i < |fs| {
      assert fs[..i] == es[..i];
      CollectPlain(mem, fs, i);
      if e.Plain? {
        WriteFar(c.mem, e.slot, AddWord(Word(c.mem, e.slot), e.base), es[i].slot);
      }
    } else {
      CollectFar(mem, fs, e.slot);
      WriteWord(c.mem, e.slot, AddWord(Word(c.mem, e.slot), e.base));
    }
  }

  /** Everything was recorded or relocated. */
  ghost predicate Complete(mem: Memory, es: seq<Entry>, c: Collected) {
    && c.recs == Records(es)
    && forall i :: 0 <= i < |es| && es[i].Plain? ==> Word(c.mem, es[i].slot) == AddWord(Word(mem, es[i].slot), es[i].base)
  }

  /** Collecting is complete exactly when no entry follows the one that fills the records. */
  lemma CollectIff(mem: Memory, es: seq<Entry>)
    requires forall i :: 0 <= i < |es| && es[i].Plain? ==> Alone(es, i) && 0 < es[i].base < WORD
    ensures Complete(mem, es, CollectAll(Collected([], mem), es)) <==> AllFit(es)
  {
    hide CollectAll;
    hide Word;
    var c := CollectAll(Collected([], mem), es);
    if AllFit(es) {
      CollectRecords(mem, es);
      forall i | 0 <= i < |es| && es[i].Plain? ensures Word(c.mem, es[i].slot) == AddWord(Word(mem, es[i].slot), es[i].base) {
        FitTaken(es, i);
        CollectPlain(mem, es, i);
      }
    } else {
      LastDropped(mem, es);
    }
  }

  lemma {:induction false} CountPrefix(es: seq<Entry>, i: nat)
    requires i <= |es|
    ensures NamedCount(es[..i]) <= NamedCount(es)
  {
    if i < |es| {
      assert es[..|es| - 1][..i] == es[..i];
      CountPrefix(es[..|es| - 1], i);
    } else {
      assert es[..i] == es;
    }
  }

  lemma FitTaken(es: seq<Entry>, i: nat)
    requires AllFit(es) && i < |es|
    ensures Taken(es, i)
  {
    var fs := es[..|es| - 1];
    assert fs[..i] == es[..i];
    CountPrefix(fs, i);
  }

  lemma LastDropped(mem: Memory, es: seq<Entry>)
    requires !AllFit(es) && (es[|es| - 1].Plain? ==> Alone(es, |es| - 1) && 0 < es[|es| - 1].base < WORD)
    ensures !Complete(mem, es, CollectAll(Collected([], mem), es))
  {
    hide Word;
    hide Write;
    var fs, e := es[..|es| - 1], es[|es| - 1];
    var c := CollectAll(Collected([], mem), es);
    CollectCount(mem, fs);
    CollectCount(mem, es);
    assert c == CollectAll(Collected([], mem), fs);
    hide CollectAll;
    hide AddWord;
    if e.Plain? {
      CollectFar(mem, fs, e.slot);
      Moved(Word(mem, e.slot), e.base);
    } else {
      assert NamedCount(es) == NamedCount(fs) + 1;
      assert |c.recs| < |Records(es)|;
    }
  }

  lemma Moved(w: Word64, base: nat)
    requires 0 < base < WORD
    ensures AddWord(w, base) != w
  {
  }

  // ---------- entries and their records ----------

  lemma {:induction false} RecordOf(es: seq<Entry>, i: nat)
    requires i < |es| && es[i].Named?
    ensures NamedCount(es[..i]) < |Records(es)|
    ensures Records(es)[NamedCount(es[..i])] == Record(es[i].slot, es[i].name)
  {
    var fs := es[..|es| - 1];
    if i < |fs| {
      assert fs[..i] == es[..i];
      RecordOf(fs, i);
    }
  }

  lemma {:induction false} EntryOf(es: seq<Entry>, k: nat) returns (i: nat)
    requires k < |Records(es)|
    ensures i < |es| && es[i].Named? && NamedCount(es[..i]) == k && Records(es)[k] == Record(es[i].slot, es[i].name)
  {
    var fs := es[..|es| - 1];
    if k < |Records(fs)| {
      i := EntryOf(fs, k);
      assert fs[..i] == es[..i];
    } else {
      i := |es| - 1;
    }
  }

  // ---------- the linker as a whole ----------

  function Linked(pages: seq<Page>, mem: Memory): Collected
    requires WellFormed(pages)
  {
    Resolve(CollectAll(Collected([], mem), Entries(pages, PAGES)), Defs(pages, PAGES))
  }

  ghost predicate AllResolved(recs: seq<Record>) {
    forall k :: 0 <= k < |recs| ==> recs[k].offs == 0
  }

  /** Some loaded object defines `name`. */
  ghost predicate Defined(pages: seq<Page>, name: string) {
    exists j: nat, i: nat :: Defines(pages, j, i) && NameAt(pages, j, i) == name
  }

  lemma DefinedIff(pages: seq<Page>, name: string)
    requires |pages| == PAGES
    ensures Defined(pages, name) <==> Find(Defs(pages, PAGES), name).Some?
  {
    if Defined(pages, name) {
      var j: nat, i: nat :| Defines(pages, j, i) && NameAt(pages, j, i) == name;
      assert Candidate(pages, name, j, i, PAGES, 0);
    }
    SearchIsFirst(pages, name, PAGES);
  }

  /** The place of a relocation holds the address of the first definition of its name, or, if there is
      none, what it held before; a plain one has had its object's base added once. */
  ghost predicate SlotRight(pages: seq<Page>, before: Memory, after: Memory, e: Entry) {
    if e.Plain? then Word(after, e.slot) == AddWord(Word(before, e.slot), e.base)
    else if e.slot != 0 && Defined(pages, e.name) then FindsFirst(pages, e.name, Some(Word(after, e.slot)), PAGES, 0)
    else Word(after, e.slot) == Word(before, e.slot)
  }

  /** Every relocation that is taken, and whose place no other one touches, ends up right. */
  lemma SlotLinked(pages: seq<Page>, mem: Memory, i: nat)
    requires WellFormed(pages) && i < |Entries(pages, PAGES)|
    requires Taken(Entries(pages, PAGES), i) && Alone(Entries(pages, PAGES), i)
    ensures SlotRight(pages, mem, Linked(pages, mem).mem, Entries(pages, PAGES)[i])
  {
    assert |pages| == PAGES;
    hide Entries;
    hide WellFormed;
    hide Defs;
    hide Resolve;
    hide CollectAll;
    hide Word;
    var es, ds := Entries(pages, PAGES), Defs(pages, PAGES);
    if es[i].Plain? {
      PlainLinked(mem, es, ds, i);
    } else {
      NamedLinked(mem, es, ds, i);
      DefinedIff(pages, es[i].name);
      SearchIsFirst(pages, es[i].name, PAGES);
    }
  }

  lemma PlainLinked(mem: Memory, es: seq<Entry>, ds: seq<Def>, i: nat)
    requires i < |es| && es[i].Plain? && Taken(es, i) && Alone(es, i)
    ensures Word(Resolve(CollectAll(Collected([], mem), es), ds).mem, es[i].slot) == AddWord(Word(mem, es[i].slot), es[i].base)
  {
    hide Resolve;
    hide CollectAll;
    hide Word;
    hide AddWord;
    var c := CollectAll(Collected([], mem), es);
    CollectPlain(mem, es, i);
    CollectRecords(mem, es);
    forall x: nat | Inside(es[i].slot, x) ensures ByteAt(Resolve(c, ds).mem, x) == ByteAt(c.mem, x) {
      forall k | 0 <= k < |c.recs| ensures !Inside(c.recs[k].offs, x) {
        var j := EntryOf(es, k);
      }
      ResolveElsewhere(c, ds, x);
    }
    SameWord(Resolve(c, ds).mem, c.mem, es[i].slot);
  }

  lemma NamedLinked(mem: Memory, es: seq<Entry>, ds: seq<Def>, i: nat)
    requires i < |es| && es[i].Named? && Taken(es, i) && Alone(es, i)
    ensures Word(Resolve(CollectAll(Collected([], mem), es), ds).mem, es[i].slot) ==
            if es[i].slot != 0 && Find(ds, es[i].name).Some? then Find(ds, es[i].name).value else Word(mem, es[i].slot)
  {
    hide Resolve;
    hide CollectAll;
    hide Word;
    hide AddWord;
    var c, k := CollectAll(Collected([], mem), es), NamedCount(es[..i]);
    CollectRecords(mem, es);
    RecordOf(es, i);
    CollectFar(mem, es, es[i].slot);
    forall l | 0 <= l < |c.recs| && l != k ensures Far(c.recs[l].offs, es[i].slot) {
      var j := EntryOf(es, l);
    }
    if es[i].slot != 0 {
      ResolveSettles(c, ds, k);
    } else {
      forall x: nat | Inside(es[i].slot, x) ensures ByteAt(Resolve(c, ds).mem, x) == ByteAt(c.mem, x) {
        ResolveElsewhere(c, ds, x);
      }
      SameWord(Resolve(c, ds).mem, c.mem, es[i].slot);
    }
  }

  /** What is added at `a` while collecting. */
  function Added(es: seq<Entry>, a: nat): nat {
    if es == [] then 0
    else
      var fs, e := es[..|es| - 1], es[|es| - 1];
      Added(fs, a) + if NamedCount(fs) < MOST_RECORDS && e.Plain? && e.slot == a then e.base else 0
  }

  /** Relocations that touch the place at `a` have exactly that place. */
  ghost predicate SamePlace(es: seq<Entry>, a: nat) {
    forall j :: 0 <= j < |es| ==> es[j].slot == a || Far(es[j].slot, a)
  }

  lemma AddTwice(w: Word64, x: nat, y: nat)
    ensures AddWord(AddWord(w, x), y) == AddWord(w, x + y)
  {
  }

  lemma AddNone(w: Word64)
    ensures AddWord(w, 0) == w
  {
  }

  lemma {:induction false} CollectShared(mem: Memory, es: seq<Entry>, a: nat)
    requires SamePlace(es, a)
    ensures Word(CollectAll(Collected([], mem), es).mem, a) == AddWord(Word(mem, a), Added(es, a))
  {
    hide Write;
    hide Word;
    hide AddWord;
    hide Far;
    if es == [] {
      AddNone(Word(mem, a));
    } else {
      var fs, e := es[..|es| - 1], es[|es| - 1];
      var c := CollectAll(Collected([], mem), fs);
      CollectShared(mem, fs, a);
      CollectCount(mem, fs);
      if e.Plain? && NamedCount(fs) < MOST_RECORDS {
        if e.slot == a {
          WriteWord(c.mem, a, AddWord(Word(c.mem, a), e.base));
          AddTwice(Word(mem, a), Added(fs, a), e.base);
        } else {
          WriteFar(c.mem, e.slot, AddWord(Word(c.mem, e.slot), e.base), a);
        }
      }
    }
  }

  /** What a place holds in the end, however many relocations share it: the first definition met last, of the names
      waited for there; if none of them is defined, what it held before with all bases added. */
  lemma PlaceHolds(pages: seq<Page>, mem: Memory, a: nat)
    requires WellFormed(pages) && a != 0 && SamePlace(Entries(pages, PAGES), a)
    ensures var es := Entries(pages, PAGES);
            Word(Linked(pages, mem).mem, a) ==
            match LastFor(Kept(es), Defs(pages, PAGES), a) { case Some(w) => w case None => AddWord(Word(mem, a), Added(es, a)) }
  {
    assert |pages| == PAGES;
    hide Entries;
    hide WellFormed;
    hide Defs;
    hide Resolve;
    hide CollectAll;
    hide Word;
    hide AddWord;
    hide Far;
    hide LastFor;
    var es := Entries(pages, PAGES);
    CollectRecords(mem, es);
    CollectShared(mem, es, a);
    KeptPlaces(es, a);
    ResolveShared(CollectAll(Collected([], mem), es), Defs(pages, PAGES), a);
  }

  lemma KeptPlaces(es: seq<Entry>, a: nat)
    requires SamePlace(es, a)
    ensures SameOrFar(Kept(es), a)
  {
    hide Far;
    var rs := Kept(es);
    forall l | 0 <= l < |rs| ensures rs[l].offs == a || Far(rs[l].offs, a) {
      var j := EntryOf(es, l);
    }
  }

  /** A place that several relocations share is right for a name waited for there exactly when the first definition
      met last, of the names waited for there, has the address of the first of its own. */
  lemma SharedSlotIff(pages: seq<Page>, mem: Memory, i: nat)
    requires WellFormed(pages) && i < |Entries(pages, PAGES)| && Waiting(Entries(pages, PAGES), i)
    requires Defined(pages, Entries(pages, PAGES)[i].name) && SamePlace(Entries(pages, PAGES), Entries(pages, PAGES)[i].slot)
    ensures var es, ds := Entries(pages, PAGES), Defs(pages, PAGES);
            Some(Word(Linked(pages, mem).mem, es[i].slot)) == Find(ds, es[i].name) <==>
            LastFor(Kept(es), ds, es[i].slot) == Find(ds, es[i].name)
  {
    assert |pages| == PAGES;
    hide Entries;
    hide WellFormed;
    hide Defs;
    hide Linked;
    hide Word;
    hide SamePlace;
    hide Defined;
    hide LastFor;
    var es, ds := Entries(pages, PAGES), Defs(pages, PAGES);
    PlaceHolds(pages, mem, es[i].slot);
    DefinedIff(pages, es[i].name);
    RecordOf(es, i);
    SomeLast(Kept(es), ds, NamedCount(es[..i]));
  }

  /** Once a name that is waited for has been defined, some definition has been written there. */
  lemma {:induction false} SomeLast(recs: seq<Record>, ds: seq<Def>, k: nat)
    requires k < |recs| && Find(ds, recs[k].sym).Some?
    ensures LastFor(recs, ds, recs[k].offs).Some?
    decreases |ds|
  {
    var es, d := ds[..|ds| - 1], ds[|ds| - 1];
    assert ds == es + [d];
    FindLast(es, d, recs[k].sym);
    if Find(es, recs[k].sym).Some? {
      SomeLast(recs, es, k);
    } else {
      assert WaitsAt(recs, |recs|, d.name, recs[k].offs);
    }
  }

  /** Every name that has been recorded is defined somewhere. */
  ghost predicate AllDefined(pages: seq<Page>, es: seq<Entry>) {
    forall i :: 0 <= i < |es| && Waiting(es, i) ==> Defined(pages, es[i].name)
  }

  /** The same, in terms of the records. */
  ghost predicate AllFound(rs: seq<Record>, ds: seq<Def>) {
    forall k :: 0 <= k < |rs| && rs[k].offs != 0 ==> Find(ds, rs[k].sym).Some?
  }

  lemma ResolvedIff(c: Collected, ds: seq<Def>)
    ensures AllResolved(Resolve(c, ds).recs) <==> AllFound(c.recs, ds)
  {
    hide Resolve;
    hide Find;
    forall k | 0 <= k < |c.recs|
      ensures Resolve(c, ds).recs[k].offs == 0 <==> c.recs[k].offs == 0 || Find(ds, c.recs[k].sym).Some?
    {
      ResolveRecord(c, ds, k);
    }
  }

  lemma FoundIff(pages: seq<Page>, es: seq<Entry>)
    requires |pages| == PAGES
    ensures AllFound(Kept(es), Defs(pages, PAGES)) <==> AllDefined(pages, es)
  {
    hide Defs;
    hide Defined;
    hide Find;
    hide Records;
    hide NamedCount;
    var rs, ds := Kept(es), Defs(pages, PAGES);
    if AllFound(rs, ds) {
      forall i | 0 <= i < |es| && Waiting(es, i) ensures Defined(pages, es[i].name) {
        RecordOf(es, i);
        DefinedIff(pages, es[i].name);
      }
    }
    if AllDefined(pages, es) {
      forall k | 0 <= k < |rs| && rs[k].offs != 0 ensures Find(ds, rs[k].sym).Some? {
        var i := EntryOf(es, k);
        assert Waiting(es, i);
        DefinedIff(pages, es[i].name);
      }
    }
  }

  /** Linking succeeds exactly when every name that has been recorded is defined somewhere. */
  lemma LinkedIff(pages: seq<Page>, mem: Memory)
    requires WellFormed(pages)
    ensures AllResolved(Linked(pages, mem).recs) <==> AllDefined(pages, Entries(pages, PAGES))
  {
    assert |pages| == PAGES;
    hide Entries;
    hide WellFormed;
    hide Defs;
    hide AllDefined;
    hide AllFound;
    hide CollectAll;
    hide Resolve;
    var es := Entries(pages, PAGES);
    CollectRecords(mem, es);
    ResolvedIff(CollectAll(Collected([], mem), es), Defs(pages, PAGES));
    FoundIff(pages, es);
  }

  /** Entry `i` is recorded, with a place to be filled in. */
  predicate Waiting(es: seq<Entry>, i: nat)
    requires i < |es|
  {
    es[i].Named? && es[i].slot != 0 && Taken(es, i)
  }

  /** No byte changes that does not belong to the place of a relocation. */
  lemma ElsewhereLinked(pages: seq<Page>, mem: Memory, x: nat)
    requires WellFormed(pages)
    requires forall i :: 0 <= i < |Entries(pages, PAGES)| ==> !Inside(Entries(pages, PAGES)[i].slot, x)
    ensures ByteAt(Linked(pages, mem).mem, x) == ByteAt(mem, x)
  {
    assert |pages| == PAGES;
    hide Entries;
    hide WellFormed;
    hide Defs;
    hide CollectAll;
    hide Resolve;
    var es, ds := Entries(pages, PAGES), Defs(pages, PAGES);
    var c := CollectAll(Collected([], mem), es);
    CollectRecords(mem, es);
    CollectElsewhere(mem, es, x);
    forall k | 0 <= k < |c.recs| ensures !Inside(c.recs[k].offs, x) {
      var j := EntryOf(es, k);
    }
    ResolveElsewhere(c, ds, x);
  }
}
