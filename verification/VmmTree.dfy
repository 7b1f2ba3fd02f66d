/** Four-level address translation, and page tables as the kernel keeps them: a radix tree of
    512-entry tables with 4K and 2M leaves. Page numbers stand for page aligned addresses. */
module VmmTree {
  import opened Options

  /** The bits of a table entry besides the address: present, writable, for user mode, page size, no-execute. */
  datatype Flags = Flags(present: bool, write: bool, user: bool, slot: bool, nx: bool, other: nat)

  datatype Entry = Entry(frame: nat, flags: Flags)

  /** Physical pages that hold tables. */
  type Memory = map<nat, seq<Entry>>

  const NOFLAGS := Flags(false, false, false, false, false, 0)
  const NOENTRY := Entry(0, NOFLAGS)

  /** 36-bit virtual page numbers. */
  const VPAGES := 0x10_0000_0000

  /** The kernel's test: no bit from 12 to 63 is set. */
  predicate Empty(e: Entry) {
    e.frame == 0 && !e.flags.nx
  }

  /** Pages below one entry of a table at the given level. */
  function Span(level: nat): nat
    requires 1 <= level <= 4
  {
    match level
    case 1 => 1
    case 2 => 512
    case 3 => 0x4_0000
    case 4 => 0x800_0000
  }

  function Index(level: nat, v: nat): (i: nat)
    requires 1 <= level <= 4
    ensures i < 512
  {
    v / Span(level) % 512
  }

  // ----- what the processor does (Intel SDM volume 3A, section 4.5)

  ghost function Walk(mem: Memory, page: nat, level: nat, v: nat): Option<nat>
    requires 1 <= level <= 4
    decreases level
  {
    if page !in mem || |mem[page]| != 512 then None
    else
      var e := mem[page][Index(level, v)];
      if !e.flags.present then None
      else if level == 1 then Some(e.frame)
      else if e.flags.slot then Large(e, level, v)
      else Walk(mem, e.frame, level - 1, v)
  }

  /** A 2M page has reserved address bits, all but the lowest of which must be zero; the page size bit
      is reserved at level 4. */
  ghost function Large(e: Entry, level: nat, v: nat): Option<nat>
    requires 2 <= level <= 4
  {
    if level == 2 && e.frame % 512 <= 1 then Some(e.frame - e.frame % 512 + v % 512)
    else if level == 3 && e.frame % 0x4_0000 <= 1 then Some(e.frame - e.frame % 0x4_0000 + v % 0x4_0000)
    else None
  }

  // ----- the tree

  /** A place for a table: its level, and the bits of the virtual page number that lead to it. */
  type Place = (nat, nat)
  type Tables = map<Place, nat>

  function Child(k: Place, i: nat): Place
    requires k.0 >= 1
  {
    (k.0 - 1, k.1 * 512 + i)
  }

  predicate IsLeaf(k: Place, e: Entry) {
    k.0 == 2 && e.flags.slot
  }

  ghost predicate EntryOk(mem: Memory, at: Tables, k: Place, i: nat)
    requires k in at && at[k] in mem && i < |mem[at[k]]| && k.0 >= 2
  {
    var e := mem[at[k]][i];
    if Empty(e) then Child(k, i) !in at && !e.flags.present
    else if IsLeaf(k, e) then Child(k, i) !in at && e.flags.present && e.frame % 512 == 0
    else Child(k, i) in at && at[Child(k, i)] == e.frame && e.flags.present && !e.flags.slot
  }

  ghost predicate PlaceOk(mem: Memory, at: Tables, k: Place)
    requires k in at
  {
    && 1 <= k.0 <= 4 && at[k] in mem && |mem[at[k]]| == 512
    && (k.0 == 4 ==> k.1 == 0)
    && (k.0 < 4 ==> (k.0 + 1, k.1 / 512) in at)
  }

  ghost predicate Tree(mem: Memory, root: nat, at: Tables) {
    && (4, 0) in at && at[(4, 0)] == root
    && (forall k <- at :: PlaceOk(mem, at, k))
    && (forall k, k' :: k in at && k' in at && k != k' ==> at[k] != at[k'])
    && (forall k, i :: k in at && k.0 >= 2 && 0 <= i < 512 ==> EntryOk(mem, at, k, i))
  }

  /** Translation read off the tree. */
  ghost function Lookup(mem: Memory, at: Tables, v: nat): Option<nat>
    requires forall k <- at :: PlaceOk(mem, at, k)
  {
    if (1, v / 512) in at then
      assert PlaceOk(mem, at, (1, v / 512));
      var e := mem[at[(1, v / 512)]][v % 512];
      if e.flags.present then Some(e.frame) else None
    else if (2, v / 0x4_0000) in at then
      assert PlaceOk(mem, at, (2, v / 0x4_0000));
      var e := mem[at[(2, v / 0x4_0000)]][v / 512 % 512];
      if Empty(e) then None else Some(e.frame + v % 512)
    else None
  }

  /** Entry `j` of the table at place `k`, if there is one. */
  ghost function Read(mem: Memory, at: Tables, k: Place, j: nat): Option<Entry> {
    if k in at && at[k] in mem && j < |mem[at[k]]| then Some(mem[at[k]][j]) else None
  }

  /** Only two entries matter for a page. */
  ghost function Found(leaf: Option<Entry>, slot: Option<Entry>, v: nat): Option<nat> {
    match leaf
    case Some(e) => if e.flags.present then Some(e.frame) else None
    case None =>
      match slot
      case Some(e) => if Empty(e) then None else Some(e.frame + v % 512)
      case None => None
  }

  lemma LookupReads(mem: Memory, root: nat, at: Tables, v: nat)
    requires Tree(mem, root, at)
    ensures Lookup(mem, at, v) == Found(Read(mem, at, (1, v / 512), v % 512), Read(mem, at, (2, v / 0x4_0000), v / 512 % 512), v)
  {
    assert (1, v / 512) in at ==> PlaceOk(mem, at, (1, v / 512));
    assert (2, v / 0x4_0000) in at ==> PlaceOk(mem, at, (2, v / 0x4_0000));
    hide Tree;
    hide Empty;
  }

  // ----- the processor agrees

  lemma Prefixes(v: nat)
    requires v < VPAGES
    ensures Child((4, 0), Index(4, v)) == (3, v / 0x800_0000)
    ensures Child((3, v / 0x800_0000), Index(3, v)) == (2, v / 0x4_0000)
    ensures Child((2, v / 0x4_0000), Index(2, v)) == (1, v / 512)
    ensures v / 512 / 512 == v / 0x4_0000 && v / 0x4_0000 / 512 == v / 0x800_0000
  {
    TopIndex(v);
    DirectoryOf(v);
    TableOf(v);
  }

  lemma TopIndex(v: nat)
    requires v < VPAGES
    ensures v / 0x800_0000 < 512 && v / 0x800_0000 % 512 == v / 0x800_0000
  {
  }

  lemma TableOf(v: nat)
    ensures v / 512 / 512 == v / 0x4_0000 && v / 0x4_0000 * 512 + v / 512 % 512 == v / 512
  {
  }

  lemma DirectoryOf(v: nat)
    ensures v / 0x4_0000 / 512 == v / 0x800_0000 && v / 0x800_0000 * 512 + v / 0x4_0000 % 512 == v / 0x4_0000
  {
  }

  lemma WalkIsLookup(mem: Memory, root: nat, at: Tables, v: nat)
    requires Tree(mem, root, at) && v < VPAGES
    ensures Walk(mem, root, 4, v) == Lookup(mem, at, v)
  {
    Prefixes(v);
    var k4, k3, k2, k1 := (4, 0), (3, v / 0x800_0000), (2, v / 0x4_0000), (1, v / 512);
    assert PlaceOk(mem, at, k4) && EntryOk(mem, at, k4, Index(4, v));
    assert k3 in at ==> PlaceOk(mem, at, k3) && EntryOk(mem, at, k3, Index(3, v));
    assert k2 in at ==> PlaceOk(mem, at, k2) && EntryOk(mem, at, k2, Index(2, v)) && k3 in at;
    assert k1 in at ==> PlaceOk(mem, at, k1) && k2 in at;
    assert root == at[k4];
    assert Index(1, v) == v % 512 && Index(2, v) == v / 512 % 512;
    LookupReads(mem, root, at, v);
    hide Tree;
    hide Index;
    hide Lookup;
  }

  // ----- writing one entry

  function Write(mem: Memory, page: nat, i: nat, e: Entry): Memory {
    if page in mem && i < |mem[page]| then mem[page := mem[page][i := e]] else mem
  }

  /** The tables at other places are not the written page. */
  lemma WriteElsewhere(mem: Memory, root: nat, at: Tables, k: Place, i: nat, e: Entry, k': Place)
    requires Tree(mem, root, at) && k in at && i < 512 && k' in at && k' != k
    ensures at[k'] in mem && Write(mem, at[k], i, e)[at[k']] == mem[at[k']]
  {
    assert PlaceOk(mem, at, k) && PlaceOk(mem, at, k');
  }

  lemma LeafTree(mem: Memory, root: nat, at: Tables, k: Place, i: nat, e: Entry)
    requires Tree(mem, root, at) && k in at && k.0 == 1 && i < 512
    ensures Tree(Write(mem, at[k], i, e), root, at)
  {
    var mem' := Write(mem, at[k], i, e);
    assert PlaceOk(mem, at, k);
    forall k' <- at
      ensures PlaceOk(mem', at, k')
    {
      assert PlaceOk(mem, at, k');
    }
    forall k', j | k' in at && k'.0 >= 2 && 0 <= j < 512
      ensures EntryOk(mem', at, k', j)
    {
      assert EntryOk(mem, at, k', j);
      WriteElsewhere(mem, root, at, k, i, e, k');
    }
  }

  lemma PageOf(v: nat, t: nat, i: nat)
    requires i < 512
    ensures v == t * 512 + i <==> v / 512 == t && v % 512 == i
  {
  }

  /** A page table entry maps its page and nothing else. */
  lemma LeafLookup(mem: Memory, root: nat, at: Tables, k: Place, i: nat, e: Entry, v: nat)
    requires Tree(mem, root, at) && k in at && k.0 == 1 && i < 512 && e.flags.present
    ensures Tree(Write(mem, at[k], i, e), root, at)
    ensures Lookup(Write(mem, at[k], i, e), at, v) ==
            if v == k.1 * 512 + i then Some(e.frame) else Lookup(mem, at, v)
  {
    var mem' := Write(mem, at[k], i, e);
    LeafTree(mem, root, at, k, i, e);
    LookupReads(mem, root, at, v);
    LookupReads(mem', root, at, v);
    ReadWritten(mem, root, at, k, i, e, (1, v / 512), v % 512);
    ReadWritten(mem, root, at, k, i, e, (2, v / 0x4_0000), v / 512 % 512);
    PageOf(v, k.1, i);
    hide Tree;
    hide Read;
    hide Lookup;
  }

  lemma ReadWritten(mem: Memory, root: nat, at: Tables, k: Place, i: nat, e: Entry, k': Place, j: nat)
    requires Tree(mem, root, at) && k in at && i < 512
    ensures Read(Write(mem, at[k], i, e), at, k', j) == if k' == k && j == i then Some(e) else Read(mem, at, k', j)
  {
    assert PlaceOk(mem, at, k);
    if k' in at && k' != k {
      WriteElsewhere(mem, root, at, k, i, e, k');
    }
    hide Tree;
  }

  /** A 2M leaf replaces whatever was below the entry. */
  lemma SlotTree(mem: Memory, root: nat, at: Tables, k: Place, i: nat, e: Entry)
    requires Tree(mem, root, at) && k in at && k.0 == 2 && i < 512
    requires e.flags.present && e.flags.slot && e.frame % 512 == 0 && !Empty(e)
    ensures Tree(Write(mem, at[k], i, e), root, at - {Child(k, i)})
  {
    var mem', at' := Write(mem, at[k], i, e), at - {Child(k, i)};
    assert PlaceOk(mem, at, k);
    forall k' <- at'
      ensures PlaceOk(mem', at', k')
    {
      assert PlaceOk(mem, at, k');
    }
    forall k', j | k' in at' && k'.0 >= 2 && 0 <= j < 512
      ensures EntryOk(mem', at', k', j)
    {
      SlotEntry(mem, root, at, k, i, e, k', j);
    }
  }

  lemma ChildInjective(k: Place, i: nat, k': Place, j: nat)
    requires k.0 >= 1 && k'.0 >= 1 && i < 512 && j < 512 && Child(k, i) == Child(k', j)
    ensures k == k' && i == j
  {
  }

  lemma SlotEntry(mem: Memory, root: nat, at: Tables, k: Place, i: nat, e: Entry, k': Place, j: nat)
    requires Tree(mem, root, at) && k in at && k.0 == 2 && i < 512
    requires e.flags.present && e.flags.slot && e.frame % 512 == 0 && !Empty(e)
    requires k' in at - {Child(k, i)} && k'.0 >= 2 && j < 512
    requires at[k'] in Write(mem, at[k], i, e) && |Write(mem, at[k], i, e)[at[k']]| == 512
    ensures EntryOk(Write(mem, at[k], i, e), at - {Child(k, i)}, k', j)
  {
    assert PlaceOk(mem, at, k) && PlaceOk(mem, at, k') && EntryOk(mem, at, k', j);
    if k' != k {
      WriteElsewhere(mem, root, at, k, i, e, k');
    }
    if Child(k', j) == Child(k, i) { ChildInjective(k', j, k, i); }
  }

  lemma SlotLookup(mem: Memory, root: nat, at: Tables, k: Place, i: nat, e: Entry, v: nat)
    requires Tree(mem, root, at) && k in at && k.0 == 2 && i < 512
    requires e.flags.present && e.flags.slot && e.frame % 512 == 0 && !Empty(e)
    ensures Tree(Write(mem, at[k], i, e), root, at - {Child(k, i)})
    ensures Lookup(Write(mem, at[k], i, e), at - {Child(k, i)}, v) ==
            if v / 512 == k.1 * 512 + i then Some(e.frame + v % 512) else Lookup(mem, at, v)
  {
    var mem', at', leaf, slot := Write(mem, at[k], i, e), at - {Child(k, i)}, (1, v / 512), (2, v / 0x4_0000);
    hide Tree;
    hide Read;
    hide Lookup;
    hide Write;
    SlotTree(mem, root, at, k, i, e);
    LookupReads(mem, root, at, v);
    LookupReads(mem', root, at', v);
    ReadWritten(mem, root, at, k, i, e, leaf, v % 512);
    ReadWritten(mem, root, at, k, i, e, slot, v / 512 % 512);
    ReadDropped(mem', at, Child(k, i), leaf, v % 512);
    ReadDropped(mem', at, Child(k, i), slot, v / 512 % 512);
    TableOf(v);
    PageOf(v / 512, k.1, i);
  }

  lemma ReadDropped(mem: Memory, at: Tables, c: Place, k: Place, j: nat)
    ensures Read(mem, at - {c}, k, j) == if k == c then None else Read(mem, at, k, j)
  {
  }

  // ----- linking a new table

  function Zeros(): (z: seq<Entry>)
    ensures |z| == 512 && forall i :: 0 <= i < 512 ==> z[i] == NOENTRY
  {
    seq(512, i requires 0 <= i < 512 => NOENTRY)
  }

  function Link(mem: Memory, page: nat, i: nat, p: nat, flags: Flags): Memory {
    Write(mem[p := Zeros()], page, i, Entry(p, flags))
  }

  lemma LinkPlace(mem: Memory, root: nat, at: Tables, k: Place, i: nat, p: nat, flags: Flags, k': Place)
    requires Tree(mem, root, at) && k in at && k.0 >= 2 && i < 512 && p !in at.Values
    requires k' in at[Child(k, i) := p]
    ensures PlaceOk(Link(mem, at[k], i, p, flags), at[Child(k, i) := p], k')
    ensures k' in at && k' != k ==> Link(mem, at[k], i, p, flags)[at[k']] == mem[at[k']]
  {
    assert PlaceOk(mem, at, k);
    if k' in at { assert PlaceOk(mem, at, k') && at[k'] in at.Values; }
    assert at[k] in at.Values;
  }

  /** The new table is empty, and nothing was below it. */
  lemma NewEntry(mem: Memory, root: nat, at: Tables, k: Place, i: nat, p: nat, flags: Flags, j: nat)
    requires Tree(mem, root, at) && k in at && k.0 >= 3 && i < 512 && Child(k, i) !in at && p !in at.Values && j < 512
    requires var mem' := Link(mem, at[k], i, p, flags); p in mem' && |mem'[p]| == 512
    ensures EntryOk(Link(mem, at[k], i, p, flags), at[Child(k, i) := p], Child(k, i), j)
  {
    var c := Child(k, i);
    ChildPlace(c, j);
    assert forall x <- at :: PlaceOk(mem, at, x);
    hide Tree;
    assert Child(c, j) !in at && Child(c, j) != c;
    assert at[k] in at.Values;
    assert Link(mem, at[k], i, p, flags)[p] == Zeros();
  }

  lemma ChildPlace(k: Place, j: nat)
    requires k.0 >= 1 && j < 512
    ensures Child(k, j).0 + 1 == k.0 && Child(k, j).1 / 512 == k.1
  {
  }

  lemma LinkEntry(mem: Memory, root: nat, at: Tables, k: Place, i: nat, p: nat, flags: Flags, k': Place, j: nat)
    requires Tree(mem, root, at) && k in at && k.0 >= 2 && i < 512 && Empty(mem[at[k]][i])
    requires p !in at.Values && p != 0 && flags.present && !flags.slot
    requires k' in at[Child(k, i) := p] && k'.0 >= 2 && j < 512
    requires PlaceOk(Link(mem, at[k], i, p, flags), at[Child(k, i) := p], k')
    ensures EntryOk(Link(mem, at[k], i, p, flags), at[Child(k, i) := p], k', j)
  {
    assert PlaceOk(mem, at, k) && EntryOk(mem, at, k, i);
    if k' == Child(k, i) {
      NewEntry(mem, root, at, k, i, p, flags, j);
    } else {
      assert EntryOk(mem, at, k', j);
      OldTable(mem, root, at, k, i, p, flags, k');
      hide Tree;
      hide Link;
      if Child(k', j) == Child(k, i) { ChildInjective(k', j, k, i); }
    }
  }

  lemma OldTable(mem: Memory, root: nat, at: Tables, k: Place, i: nat, p: nat, flags: Flags, k': Place)
    requires Tree(mem, root, at) && k in at && k.0 >= 2 && i < 512 && p !in at.Values && k' in at
    ensures var mem' := Link(mem, at[k], i, p, flags);
            && at[k] in mem && |mem[at[k]]| == 512 && at[k'] in mem && at[k'] in mem'
            && mem'[at[k']] == if k' == k then mem[at[k]][i := Entry(p, flags)] else mem[at[k']]
  {
    assert PlaceOk(mem, at, k) && PlaceOk(mem, at, k');
    assert at[k] in at.Values && at[k'] in at.Values;
    assert k' != k ==> at[k'] != at[k];
    hide Tree;
    hide PlaceOk;
  }

  lemma LinkTree(mem: Memory, root: nat, at: Tables, k: Place, i: nat, p: nat, flags: Flags)
    requires Tree(mem, root, at) && k in at && k.0 >= 2 && i < 512
    requires at[k] in mem && |mem[at[k]]| == 512 && Empty(mem[at[k]][i])
    requires p !in at.Values && p != 0 && flags.present && !flags.slot
    ensures Tree(Link(mem, at[k], i, p, flags), root, at[Child(k, i) := p])
  {
    var mem', at' := Link(mem, at[k], i, p, flags), at[Child(k, i) := p];
    assert PlaceOk(mem, at, k) && EntryOk(mem, at, k, i);
    assert (4, 0) != Child(k, i);
    forall k' <- at'
      ensures PlaceOk(mem', at', k')
    {
      LinkPlace(mem, root, at, k, i, p, flags, k');
    }
    forall k', j | k' in at' && k'.0 >= 2 && 0 <= j < 512
      ensures EntryOk(mem', at', k', j)
    {
      LinkEntry(mem, root, at, k, i, p, flags, k', j);
    }
    forall a, b | a in at' && b in at' && a != b
      ensures at'[a] != at'[b]
    {
      assert a in at ==> at[a] in at.Values;
      assert b in at ==> at[b] in at.Values;
    }
  }

  /** A new table changes no translation. */
  lemma LinkLookup(mem: Memory, root: nat, at: Tables, k: Place, i: nat, p: nat, flags: Flags, v: nat)
    requires Tree(mem, root, at) && k in at && k.0 >= 2 && i < 512
    requires at[k] in mem && |mem[at[k]]| == 512 && Empty(mem[at[k]][i])
    requires p !in at.Values && p != 0 && flags.present && !flags.slot
    ensures Tree(Link(mem, at[k], i, p, flags), root, at[Child(k, i) := p])
    ensures Lookup(Link(mem, at[k], i, p, flags), at[Child(k, i) := p], v) == Lookup(mem, at, v)
  {
    var mem', at', c := Link(mem, at[k], i, p, flags), at[Child(k, i) := p], Child(k, i);
    var leaf: Place, slot: Place := (1, v / 512), (2, v / 0x4_0000);
    assert EntryOk(mem, at, k, i);
    hide Tree;
    hide Lookup;
    hide Link;
    LinkTree(mem, root, at, k, i, p, flags);
    LookupReads(mem, root, at, v);
    LookupReads(mem', root, at', v);
    ReadLinked(mem, root, at, k, i, p, flags, leaf, v % 512);
    ReadLinked(mem, root, at, k, i, p, flags, slot, v / 512 % 512);
    TableOf(v);
    PageOf(v / 512, k.1, i);
  }

  lemma ReadLinked(mem: Memory, root: nat, at: Tables, k: Place, i: nat, p: nat, flags: Flags, k': Place, j: nat)
    requires Tree(mem, root, at) && k in at && k.0 >= 2 && i < 512 && Child(k, i) !in at && p !in at.Values && j < 512
    ensures Read(Link(mem, at[k], i, p, flags), at[Child(k, i) := p], k', j) ==
            if k' == Child(k, i) then Some(NOENTRY)
            else if k' == k && j == i then Some(Entry(p, flags))
            else Read(mem, at, k', j)
  {
    assert at[k] in at.Values;
    if k' in at {
      OldTable(mem, root, at, k, i, p, flags, k');
    }
    hide Tree;
  }

  // ----- a 2M entry that is not aligned

  /** Where the processor gets for a page below entry `i` of the directory at `k`. */
  lemma WalkSlot(mem: Memory, root: nat, at: Tables, k: Place, i: nat, e: Entry, x: nat)
    requires Tree(mem, root, at) && k in at && k.0 == 2 && i < 512 && e.flags.present && e.flags.slot
    requires x < VPAGES && x / 512 == k.1 * 512 + i
    ensures Walk(Write(mem, at[k], i, e), root, 4, x) == Large(e, 2, x)
  {
    Prefixes(x);
    var mem' := Write(mem, at[k], i, e);
    var k4: Place, k3: Place := (4, 0), (3, x / 0x800_0000);
    assert k == (2, x / 0x4_0000) && i == Index(2, x);
    assert PlaceOk(mem, at, k) && PlaceOk(mem, at, k3) && PlaceOk(mem, at, k4);
    assert EntryOk(mem, at, k4, Index(4, x)) && EntryOk(mem, at, k3, Index(3, x));
    WriteElsewhere(mem, root, at, k, i, e, k4);
    WriteElsewhere(mem, root, at, k, i, e, k3);
    assert root == at[k4];
    hide Tree;
    hide Index;
    hide Walk;
    WalkDown(mem', at[k4], 4, x);
    WalkDown(mem', at[k3], 3, x);
    WalkDown(mem', at[k], 2, x);
  }

  /** One level of the walk. */
  lemma WalkDown(mem: Memory, page: nat, level: nat, v: nat)
    requires 2 <= level <= 4 && page in mem && |mem[page]| == 512 && mem[page][Index(level, v)].flags.present
    ensures var e := mem[page][Index(level, v)];
            Walk(mem, page, level, v) == if e.flags.slot then Large(e, level, v) else Walk(mem, e.frame, level - 1, v)
  {
    hide Index;
    hide Large;
  }

  /** The 2M from page `v` on are mapped, page for page, to those from frame `f` on, and nothing else is mapped anew. */
  ghost predicate SlotMapped(mem: Memory, mem': Memory, root: nat, v: nat, f: nat) {
    && (forall x: nat :: v <= x < v + 512 && x < VPAGES ==> Walk(mem', root, 4, x) == Some(f + x - v))
    && forall x: nat :: x < VPAGES && !(v <= x < v + 512) ==> Walk(mem', root, 4, x) == Walk(mem, root, 4, x)
  }

  /** The test before a 2M entry is written is that the frame is at least 512. The entry does what it
      should exactly when the page and the frame are multiples of 512. */
  lemma SlotAlignedIff(mem: Memory, root: nat, at: Tables, k: Place, i: nat, v: nat, f: nat, flags: Flags)
    requires Tree(mem, root, at) && k in at && k.0 == 2 && i < 512 && v < VPAGES && v / 512 == k.1 * 512 + i
    requires at[k] in mem && |mem[at[k]]| == 512 && Empty(mem[at[k]][i])
    requires f >= 512 && flags.present && flags.slot
    ensures SlotMapped(mem, Write(mem, at[k], i, Entry(f, flags)), root, v, f) <==> v % 512 == 0 && f % 512 == 0
  {
    hide Walk;
    hide Tree;
    WalkSlot(mem, root, at, k, i, Entry(f, flags), v);
    if v % 512 == 0 && f % 512 == 0 {
      SlotAligned(mem, root, at, k, i, v, Entry(f, flags));
    } else if f % 512 == 1 && v % 512 == 1 {
      WalkSlot(mem, root, at, k, i, Entry(f, flags), v - 1);
      NothingBelow(mem, root, at, k, i, v - 1);
    }
  }

  lemma SlotAligned(mem: Memory, root: nat, at: Tables, k: Place, i: nat, v: nat, e: Entry)
    requires Tree(mem, root, at) && k in at && k.0 == 2 && i < 512 && v < VPAGES && v == (k.1 * 512 + i) * 512
    requires e.flags.present && e.flags.slot && e.frame % 512 == 0 && !Empty(e)
    ensures SlotMapped(mem, Write(mem, at[k], i, e), root, v, e.frame)
  {
    hide Walk;
    var mem' := Write(mem, at[k], i, e);
    forall x: nat | v <= x < v + 512
      ensures Walk(mem', root, 4, x) == Some(e.frame + x - v)
    {
      WalkSlot(mem, root, at, k, i, e, x);
    }
    forall x: nat | x < VPAGES && !(v <= x < v + 512)
      ensures Walk(mem', root, 4, x) == Walk(mem, root, 4, x)
    {
      SlotLookup(mem, root, at, k, i, e, x);
      WalkIsLookup(mem, root, at, x);
      WalkIsLookup(mem', root, at - {Child(k, i)}, x);
    }
  }

  lemma NothingBelow(mem: Memory, root: nat, at: Tables, k: Place, i: nat, x: nat)
    requires Tree(mem, root, at) && k in at && k.0 == 2 && i < 512 && x / 512 == k.1 * 512 + i
    requires at[k] in mem && |mem[at[k]]| == 512 && Empty(mem[at[k]][i])
    requires x < VPAGES
    ensures Walk(mem, root, 4, x) == None
  {
    WalkIsLookup(mem, root, at, x);
    assert EntryOk(mem, at, k, i);
    TableOf(x);
    PageOf(x / 512, k.1, i);
    hide Tree;
    hide Walk;
  }
}
