/** Access rights: what the processor makes of the flags along a walk, and what mapping requests leave of
    the flags in page tables. */
module VmmRights {
  import opened Options
  import opened VmmTree
  import opened VmmMaps
  import PmmTable

  // ----- what the processor does (Intel SDM volume 3A, section 4.6)

  datatype Right = Right(write: bool, user: bool, nx: bool)

  function RightOf(f: Flags): Right {
    Right(f.write, f.user, f.nx)
  }

  /** Every level has to allow writing and user mode, and any level can forbid execution. */
  function Meet(a: Right, b: Right): Right {
    Right(a.write && b.write, a.user && b.user, a.nx || b.nx)
  }

  ghost function Rights(mem: Memory, page: nat, level: nat, v: nat): Option<Right>
    requires 1 <= level <= 4
    decreases level
  {
    if page !in mem || |mem[page]| != 512 then None
    else
      var e := mem[page][Index(level, v)];
      if !e.flags.present then None
      else if level == 1 then Some(RightOf(e.flags))
      else if e.flags.slot then if Large(e, level, v).Some? then Some(RightOf(e.flags)) else None
      else match Rights(mem, e.frame, level - 1, v)
        case None => None
        case Some(r) => Some(Meet(RightOf(e.flags), r))
  }

  /** There are rights exactly where there is a translation. */
  lemma {:induction false} RightsWalk(mem: Memory, page: nat, level: nat, v: nat)
    requires 1 <= level <= 4
    ensures Rights(mem, page, level, v).Some? <==> Walk(mem, page, level, v).Some?
    decreases level
  {
    hide Large;
    hide Index;
    if level > 1 && page in mem && |mem[page]| == 512 {
      RightsWalk(mem, mem[page][Index(level, v)].frame, level - 1, v);
    }
  }

  // ----- flags read off the tree

  /** The flags of the entry that maps a page, and whether that is a 2M entry. */
  datatype Mark = Mark(big: bool, flags: Flags)

  ghost function MarkOf(leaf: Option<Entry>, slot: Option<Entry>): Option<Mark> {
    match leaf
    case Some(e) => if e.flags.present then Some(Mark(false, e.flags)) else None
    case None =>
      match slot
      case Some(e) => if Empty(e) then None else Some(Mark(true, e.flags))
      case None => None
  }

  ghost function Marks(pt: PT, v: nat): Option<Mark> {
    MarkOf(Read(pt.mem, pt.at, (1, v / 512), v % 512), Read(pt.mem, pt.at, (2, v / 0x4_0000), v / 512 % 512))
  }

  /** The entry that leads to the table at place `c`. */
  ghost function LinkTo(pt: PT, c: Place): Option<Entry> {
    Read(pt.mem, pt.at, (c.0 + 1, c.1 / 512), c.1 % 512)
  }

  ghost function LinkRight(pt: PT, c: Place): Right {
    match LinkTo(pt, c)
    case Some(e) => RightOf(e.flags)
    case None => Right(true, true, false)
  }

  /** What the links of levels 3 and 2 allow. */
  ghost function Above(pt: PT, v: nat): Right {
    Meet(LinkRight(pt, (3, v / 0x800_0000)), LinkRight(pt, (2, v / 0x4_0000)))
  }

  ghost function PathRights(pt: PT, v: nat): Option<Right> {
    match Marks(pt, v)
    case None => None
    case Some(m) =>
      Some(Meet(Above(pt, v), if m.big then RightOf(m.flags) else Meet(LinkRight(pt, (1, v / 512)), RightOf(m.flags))))
  }

  /** The link to a table is there, and is neither empty nor a 2M entry. */
  lemma LinkThere(pt: PT, root: nat, c: Place)
    requires Ok(pt, root) && c in pt.at && c.0 < 4
    ensures var p: Place, i := (c.0 + 1, c.1 / 512), c.1 % 512;
            && c.0 >= 1 && p in pt.at && Child(p, i) == c && pt.at[p] in pt.mem && |pt.mem[pt.at[p]]| == 512
            && LinkTo(pt, c) == Some(pt.mem[pt.at[p]][i]) && pt.at[c] == pt.mem[pt.at[p]][i].frame
            && !Empty(pt.mem[pt.at[p]][i]) && !IsLeaf(p, pt.mem[pt.at[p]][i])
            && pt.mem[pt.at[p]][i].flags.present && !pt.mem[pt.at[p]][i].flags.slot
  {
    hide Ok;
    hide Child;
    hide Empty;
    Parent(pt, root, c);
    OnlyChild(c);
  }

  lemma OnlyChild(c: Place)
    ensures Child((c.0 + 1, c.1 / 512), c.1 % 512) == c
  {
    assert c == (c.0, c.1);
  }

  lemma Parent(pt: PT, root: nat, c: Place)
    requires Ok(pt, root) && c in pt.at && c.0 < 4
    ensures var p: Place := (c.0 + 1, c.1 / 512);
            && c.0 >= 1 && p in pt.at && pt.at[p] in pt.mem && |pt.mem[pt.at[p]]| == 512
            && EntryOk(pt.mem, pt.at, p, c.1 % 512)
  {
    hide EntryOk;
    assert PlaceOk(pt.mem, pt.at, c);
    assert PlaceOk(pt.mem, pt.at, (c.0 + 1, c.1 / 512));
  }

  /** One level of the walk. */
  lemma RightsDown(mem: Memory, page: nat, level: nat, v: nat)
    requires 2 <= level <= 4 && page in mem && |mem[page]| == 512
    ensures var e := mem[page][Index(level, v)];
            && (!e.flags.present ==> Rights(mem, page, level, v) == None)
            && (e.flags.present && e.flags.slot ==>
                  Rights(mem, page, level, v) == if Large(e, level, v).Some? then Some(RightOf(e.flags)) else None)
            && (e.flags.present && !e.flags.slot ==>
                  Rights(mem, page, level, v) == match Rights(mem, e.frame, level - 1, v)
                                                 case None => None
                                                 case Some(r) => Some(Meet(RightOf(e.flags), r)))
  {
    hide Index;
    hide Large;
  }

  /** Down the link to the table at place `c`. */
  lemma RightsAlong(pt: PT, root: nat, c: Place, v: nat)
    requires Ok(pt, root) && c in pt.at && 1 <= c.0 < 4 && c.1 % 512 == Index(c.0 + 1, v)
    ensures (c.0 + 1, c.1 / 512) in pt.at
    ensures Rights(pt.mem, pt.at[(c.0 + 1, c.1 / 512)], c.0 + 1, v) ==
            match Rights(pt.mem, pt.at[c], c.0, v) { case None => None case Some(r) => Some(Meet(LinkRight(pt, c), r)) }
  {
    hide Ok;
    hide Rights;
    hide Index;
    LinkThere(pt, root, c);
    RightsDown(pt.mem, pt.at[(c.0 + 1, c.1 / 512)], c.0 + 1, v);
  }

  /** At the end of the walk: the entry of the directory, when there is no table below it. */
  lemma RightsSlot(pt: PT, root: nat, v: nat)
    requires Ok(pt, root) && v < VPAGES && (2, v / 0x4_0000) in pt.at && (1, v / 512) !in pt.at
    ensures Rights(pt.mem, pt.at[(2, v / 0x4_0000)], 2, v) ==
            match Marks(pt, v) { case None => None case Some(m) => Some(RightOf(m.flags)) }
    ensures Marks(pt, v).Some? ==> Marks(pt, v).value.big
  {
    var k: Place := (2, v / 0x4_0000);
    Prefixes(v);
    assert PlaceOk(pt.mem, pt.at, k) && EntryOk(pt.mem, pt.at, k, Index(2, v));
    assert Index(2, v) == v / 512 % 512;
    hide Ok;
    hide Tree;
    hide Index;
    RightsDown(pt.mem, pt.at[k], 2, v);
    hide Rights;
  }

  lemma RightsLeaf(pt: PT, root: nat, v: nat)
    requires Ok(pt, root) && (1, v / 512) in pt.at
    ensures Rights(pt.mem, pt.at[(1, v / 512)], 1, v) ==
            match Marks(pt, v) { case None => None case Some(m) => Some(RightOf(m.flags)) }
    ensures Marks(pt, v).Some? ==> !Marks(pt, v).value.big
  {
    assert PlaceOk(pt.mem, pt.at, (1, v / 512));
    assert Index(1, v) == v % 512;
    hide Ok;
    hide Tree;
    hide Index;
  }

  lemma NothingThere(pt: PT, root: nat, k: Place, v: nat)
    requires Ok(pt, root) && k in pt.at && 2 < k.0 <= 4 && Child(k, Index(k.0, v)) !in pt.at
    ensures Rights(pt.mem, pt.at[k], k.0, v) == None
  {
    assert PlaceOk(pt.mem, pt.at, k) && EntryOk(pt.mem, pt.at, k, Index(k.0, v));
    hide Ok;
    hide Tree;
    hide Index;
  }

  /** The processor's rights are those of the entry that maps the page, as far as the links to its table allow them. */
  lemma RightsRead(pt: PT, root: nat, v: nat)
    requires Ok(pt, root) && v < VPAGES
    ensures Rights(pt.mem, root, 4, v) == PathRights(pt, v)
  {
    var k4: Place, k3: Place, k2: Place, k1: Place := (4, 0), (3, v / 0x800_0000), (2, v / 0x4_0000), (1, v / 512);
    Prefixes(v);
    TopIndex(v);
    PathPlaces(pt, root, v);
    RootPlace(pt, root);
    hide Ok;
    hide Rights;
    hide Marks;
    hide LinkRight;
    if k3 !in pt.at {
      NothingThere(pt, root, k4, v);
    } else {
      RightsAlong(pt, root, k3, v);
      if k2 !in pt.at {
        NothingThere(pt, root, k3, v);
      } else {
        RightsAlong(pt, root, k2, v);
        if k1 !in pt.at {
          RightsSlot(pt, root, v);
        } else {
          RightsAlong(pt, root, k1, v);
          RightsLeaf(pt, root, v);
        }
      }
    }
  }

  /** A table is only there when those above it are; without them nothing is mapped. */
  lemma PathPlaces(pt: PT, root: nat, v: nat)
    requires Ok(pt, root) && v < VPAGES
    ensures (1, v / 512) in pt.at ==> (2, v / 0x4_0000) in pt.at
    ensures (2, v / 0x4_0000) in pt.at ==> (3, v / 0x800_0000) in pt.at
    ensures (2, v / 0x4_0000) !in pt.at ==> Marks(pt, v) == None
  {
    Prefixes(v);
    assert (1, v / 512) in pt.at ==> PlaceOk(pt.mem, pt.at, (1, v / 512));
    assert (2, v / 0x4_0000) in pt.at ==> PlaceOk(pt.mem, pt.at, (2, v / 0x4_0000));
    hide Ok;
    hide Tree;
  }

  // ----- what a request does to the flags

  /** An entry above the page tables stays, or a 2M entry takes its place. */
  ghost predicate Stays(a: PT, b: PT, k: Place, i: nat) {
    var d, e := Read(a.mem, a.at, k, i), Read(b.mem, b.at, k, i);
    d.Some? && !Empty(d.value) ==> e == d || (e.Some? && !Empty(e.value) && IsLeaf(k, e.value))
  }

  /** Tables are added, with the same flags for each; only page tables are dropped, for 2M entries. */
  ghost predicate Grafts(a: PT, b: PT, flags: Flags) {
    && (forall k <- a.at :: k.0 >= 2 ==> k in b.at)
    && (forall k: Place, i: nat :: k.0 >= 2 ==> Stays(a, b, k, i))
    && forall c <- b.at :: c.0 < 4 && c !in a.at ==> LinkTo(b, c).Some? && LinkTo(b, c).value.flags == flags
  }

  /** The page is mapped with these flags, and with the page size bit if it is in a 2M entry. */
  ghost predicate MarkedAs(pt: PT, v: nat, flags: Flags) {
    Marks(pt, v).Some? && Marks(pt, v).value.flags == flags.(slot := Marks(pt, v).value.big)
  }

  /** `n` pages from `v` on are mapped with these flags, and all others as before. */
  ghost predicate Marked(a: PT, b: PT, v: nat, n: nat, flags: Flags) {
    forall x: nat :: if v <= x < v + n then MarkedAs(b, x, flags) else Marks(b, x) == Marks(a, x)
  }

  ghost predicate Gives(a: PT, b: PT, v: nat, n: nat, flags: Flags) {
    Grafts(a, b, flags) && Marked(a, b, v, n, flags)
  }

  lemma GivesNone(a: PT, v: nat, flags: Flags)
    ensures Gives(a, a, v, 0, flags)
  {
    hide Marks;
    hide LinkTo;
  }

  lemma GivesAnywhere(a: PT, b: PT, v: nat, w: nat, flags: Flags)
    requires Gives(a, b, v, 0, flags)
    ensures Gives(a, b, w, 0, flags)
  {
    hide Grafts;
    hide Marks;
  }

  /** A link that was there is the same, as long as its table is there. */
  lemma LinkKept(a: PT, b: PT, root: nat, flags: Flags, c: Place)
    requires Ok(a, root) && Ok(b, root) && Grafts(a, b, flags) && c in a.at && c in b.at && c.0 < 4
    ensures LinkTo(b, c) == LinkTo(a, c)
  {
    hide Ok;
    LinkThere(a, root, c);
    LinkThere(b, root, c);
    assert Stays(a, b, (c.0 + 1, c.1 / 512), c.1 % 512);
    hide Grafts;
  }

  lemma StaysThen(a: PT, b: PT, c: PT, k: Place, i: nat)
    requires Stays(a, b, k, i) && Stays(b, c, k, i)
    ensures Stays(a, c, k, i)
  {
    hide Empty;
    hide Read;
  }

  lemma GraftsThen(a: PT, b: PT, c: PT, root: nat, flags: Flags)
    requires Ok(b, root) && Ok(c, root) && Grafts(a, b, flags) && Grafts(b, c, flags)
    ensures Grafts(a, c, flags)
  {
    hide Ok;
    hide LinkTo;
    forall k: Place, i: nat | k.0 >= 2 ensures Stays(a, c, k, i) {
      assert Stays(a, b, k, i) && Stays(b, c, k, i);
      StaysThen(a, b, c, k, i);
    }
    hide Stays;
    forall k <- c.at | k.0 < 4 && k !in a.at ensures LinkTo(c, k).Some? && LinkTo(c, k).value.flags == flags {
      if k in b.at {
        LinkKept(b, c, root, flags, k);
      }
    }
  }

  lemma GivesThen(a: PT, b: PT, c: PT, root: nat, v: nat, n: nat, m: nat, flags: Flags)
    requires Ok(b, root) && Ok(c, root) && Gives(a, b, v, n, flags) && Gives(b, c, v + n, m, flags)
    ensures Gives(a, c, v, n + m, flags)
  {
    hide Ok;
    GraftsThen(a, b, c, root, flags);
    hide Grafts;
    hide Marks;
  }

  lemma GraftsOf(a: PT, b: PT, v: nat, n: nat, flags: Flags)
    requires Gives(a, b, v, n, flags)
    ensures Grafts(a, b, flags)
  {
  }

  lemma GivesGrafts(a: PT, b: PT, c: PT, root: nat, v: nat, n: nat, flags: Flags)
    requires Ok(b, root) && Ok(c, root) && Grafts(a, b, flags) && Gives(b, c, v, n, flags)
    ensures Grafts(a, c, flags)
  {
    GraftsThen(a, b, c, root, flags);
  }

  // ----- single entries

  lemma PutTableGives(pt: PT, root: nat, k: Place, i: nat, p: nat, flags: Flags)
    requires Ok(pt, root) && k in pt.at && k.0 >= 2 && i < 512
    requires pt.at[k] in pt.mem && |pt.mem[pt.at[k]]| == 512 && Empty(pt.mem[pt.at[k]][i])
    requires p !in pt.at.Values && p != 0 && flags.present && !flags.slot
    ensures Gives(pt, PutTable(pt, k, i, p, flags), 0, 0, flags)
  {
    hide Ok;
    hide Empty;
    hide Link;
    hide Stays;
    hide Marks;
    hide LinkTo;
    hide Child;
    var b := PutTable(pt, k, i, p, flags);
    NothingBelowEmpty(pt, root, k, i);
    forall k': Place, j: nat | k'.0 >= 2 ensures Stays(pt, b, k', j) {
      TableStays(pt, root, k, i, p, flags, k', j);
    }
    forall c <- b.at | c.0 < 4 && c !in pt.at ensures LinkTo(b, c).Some? && LinkTo(b, c).value.flags == flags {
      TableLink(pt, root, k, i, p, flags);
    }
    forall x: nat ensures Marks(b, x) == Marks(pt, x) {
      TableMarks(pt, root, k, i, p, flags, x);
    }
  }

  lemma NothingBelowEmpty(pt: PT, root: nat, k: Place, i: nat)
    requires Ok(pt, root) && k in pt.at && k.0 >= 2 && i < 512
    requires pt.at[k] in pt.mem && |pt.mem[pt.at[k]]| == 512 && Empty(pt.mem[pt.at[k]][i])
    ensures Child(k, i) !in pt.at
  {
    assert EntryOk(pt.mem, pt.at, k, i);
  }

  lemma TableLink(pt: PT, root: nat, k: Place, i: nat, p: nat, flags: Flags)
    requires Ok(pt, root) && k in pt.at && k.0 >= 2 && i < 512 && Child(k, i) !in pt.at && p !in pt.at.Values
    ensures LinkTo(PutTable(pt, k, i, p, flags), Child(k, i)) == Some(Entry(p, flags))
  {
    ChildPlace(k, i);
    ReadLinked(pt.mem, root, pt.at, k, i, p, flags, k, i);
    hide Ok;
    hide Link;
    hide Read;
  }

  lemma TableStays(pt: PT, root: nat, k: Place, i: nat, p: nat, flags: Flags, k': Place, j: nat)
    requires Ok(pt, root) && k in pt.at && k.0 >= 2 && i < 512 && Child(k, i) !in pt.at
    requires pt.at[k] in pt.mem && |pt.mem[pt.at[k]]| == 512 && Empty(pt.mem[pt.at[k]][i]) && p !in pt.at.Values
    ensures Stays(pt, PutTable(pt, k, i, p, flags), k', j)
  {
    if k' in pt.at && j < 512 {
      ReadLinked(pt.mem, root, pt.at, k, i, p, flags, k', j);
    } else if k' in pt.at {
      assert PlaceOk(pt.mem, pt.at, k');
    }
    hide Ok;
    hide Link;
  }

  /** A new table is empty, and maps nothing where nothing was mapped. */
  lemma TableMarks(pt: PT, root: nat, k: Place, i: nat, p: nat, flags: Flags, x: nat)
    requires Ok(pt, root) && k in pt.at && k.0 >= 2 && i < 512 && Child(k, i) !in pt.at && p !in pt.at.Values
    requires pt.at[k] in pt.mem && |pt.mem[pt.at[k]]| == 512 && Empty(pt.mem[pt.at[k]][i])
    ensures Marks(PutTable(pt, k, i, p, flags), x) == Marks(pt, x)
  {
    var leaf: Place, slot: Place := (1, x / 512), (2, x / 0x4_0000);
    ReadLinked(pt.mem, root, pt.at, k, i, p, flags, leaf, x % 512);
    ReadLinked(pt.mem, root, pt.at, k, i, p, flags, slot, x / 512 % 512);
    hide Ok;
    hide Link;
    TableOf(x);
    PageOf(x / 512, k.1, i);
  }

  lemma PutLeafGives(pt: PT, root: nat, k: Place, i: nat, e: Entry)
    requires Ok(pt, root) && k in pt.at && k.0 == 1 && i < 512 && e.flags.present && !e.flags.slot
    ensures Gives(pt, Put(pt, pt.at[k], i, e), k.1 * 512 + i, 1, e.flags)
  {
    var b := Put(pt, pt.at[k], i, e);
    hide Ok;
    hide Write;
    hide Read;
    forall k': Place, j: nat | k'.0 >= 2 ensures Stays(pt, b, k', j) {
      LeafRead(pt, root, k, i, e, k', j);
    }
    hide Stays;
    hide Marks;
    hide MarkedAs;
    forall x: nat
      ensures if k.1 * 512 + i <= x < k.1 * 512 + i + 1 then MarkedAs(b, x, e.flags) else Marks(b, x) == Marks(pt, x)
    {
      LeafMarks(pt, root, k, i, e, x);
    }
  }

  lemma LeafMarks(pt: PT, root: nat, k: Place, i: nat, e: Entry, x: nat)
    requires Ok(pt, root) && k in pt.at && k.0 == 1 && i < 512 && e.flags.present && !e.flags.slot
    ensures var b := Put(pt, pt.at[k], i, e);
            if x == k.1 * 512 + i then MarkedAs(b, x, e.flags) else Marks(b, x) == Marks(pt, x)
  {
    hide Ok;
    hide Put;
    hide Read;
    LeafRead(pt, root, k, i, e, (1, x / 512), x % 512);
    LeafRead(pt, root, k, i, e, (2, x / 0x4_0000), x / 512 % 512);
    PageOf(x, k.1, i);
  }

  lemma LeafRead(pt: PT, root: nat, k: Place, i: nat, e: Entry, k': Place, j: nat)
    requires Ok(pt, root) && k in pt.at && k.0 == 1 && i < 512
    ensures var b := Put(pt, pt.at[k], i, e);
            Read(b.mem, b.at, k', j) == if k' == k && j == i then Some(e) else Read(pt.mem, pt.at, k', j)
  {
    hide Tree;
    ReadWritten(pt.mem, root, pt.at, k, i, e, k', j);
  }

  lemma SlotRead(pt: PT, root: nat, k: Place, i: nat, e: Entry, k': Place, j: nat)
    requires Ok(pt, root) && k in pt.at && k.0 == 2 && i < 512
    ensures var b := PutSlot(pt, k, i, e);
            Read(b.mem, b.at, k', j) ==
            if k' == Child(k, i) then None else if k' == k && j == i then Some(e) else Read(pt.mem, pt.at, k', j)
  {
    hide Tree;
    ReadWritten(pt.mem, root, pt.at, k, i, e, k', j);
    ReadDropped(Write(pt.mem, pt.at[k], i, e), pt.at, Child(k, i), k', j);
  }

  lemma PutSlotGives(pt: PT, root: nat, k: Place, i: nat, e: Entry, flags: Flags)
    requires Ok(pt, root) && k in pt.at && k.0 == 2 && i < 512 && !Empty(e) && e.flags == flags.(slot := true)
    ensures Gives(pt, PutSlot(pt, k, i, e), (k.1 * 512 + i) * 512, 512, flags)
  {
    var b := PutSlot(pt, k, i, e);
    hide Ok;
    hide Write;
    hide Read;
    forall k': Place, j: nat | k'.0 >= 2 ensures Stays(pt, b, k', j) {
      SlotRead(pt, root, k, i, e, k', j);
    }
    var v := (k.1 * 512 + i) * 512;
    hide Stays;
    hide Marks;
    hide MarkedAs;
    forall x: nat
      ensures if v <= x < v + 512 then MarkedAs(b, x, flags) else Marks(b, x) == Marks(pt, x)
    {
      SlotMarks(pt, root, k, i, e, flags, x);
      InSlot(x, k.1 * 512 + i);
    }
  }

  lemma SlotMarks(pt: PT, root: nat, k: Place, i: nat, e: Entry, flags: Flags, x: nat)
    requires Ok(pt, root) && k in pt.at && k.0 == 2 && i < 512 && !Empty(e) && e.flags == flags.(slot := true)
    ensures var b := PutSlot(pt, k, i, e);
            if x / 512 == k.1 * 512 + i then MarkedAs(b, x, flags) else Marks(b, x) == Marks(pt, x)
  {
    hide Ok;
    hide PutSlot;
    hide Read;
    SlotRead(pt, root, k, i, e, (1, x / 512), x % 512);
    SlotRead(pt, root, k, i, e, (2, x / 0x4_0000), x / 512 % 512);
    TableOf(x);
    PageOf(x / 512, k.1, i);
  }

  // ----- many entries

  lemma {:induction false} FilledGives(pt: PT, root: nat, k: Place, i: nat, f: nat, n: nat, flags: Flags)
    requires Ok(pt, root) && k in pt.at && k.0 == 1 && i + n <= 512 && flags.present && !flags.slot
    ensures Gives(pt, FilledPT(pt, k, i, f, n, flags), k.1 * 512 + i, n, flags)
  {
    hide Ok;
    hide Gives;
    hide NoNewLeaf;
    hide Maps;
    if n == 0 {
      GivesNone(pt, k.1 * 512 + i, flags);
    } else {
      var was, e := FilledPT(pt, k, i, f, n - 1, flags), Entry(f + n - 1, flags);
      FilledGives(pt, root, k, i, f, n - 1, flags);
      FilledMaps(pt, root, k, i, f, n - 1, flags);
      PutLeafGives(was, root, k, i + n - 1, e);
      PutLeaf(was, root, k, i + n - 1, e);
      hide Write;
      GivesThen(pt, was, Put(was, was.at[k], i + n - 1, e), root, k.1 * 512 + i, n - 1, 1, flags);
    }
  }

  lemma {:induction false} SlotFilledGives(pt: PT, root: nat, k: Place, i: nat, f: nat, n: nat, flags: Flags)
    requires Ok(pt, root) && k in pt.at && k.0 == 2 && i + n <= 512 && flags.present && f % 512 == 0 && f >= 512
    ensures Gives(pt, SlotFilled(pt, k, i, f, n, flags), (k.1 * 512 + i) * 512, n * 512, flags)
  {
    hide Ok;
    hide Gives;
    hide SlotLeaf;
    hide PutSlot;
    hide Maps;
    if n == 0 {
      GivesNone(pt, (k.1 * 512 + i) * 512, flags);
    } else {
      var was, e := SlotFilled(pt, k, i, f, n - 1, flags), Entry(f + (n - 1) * 512, flags.(slot := true));
      SlotFilledGives(pt, root, k, i, f, n - 1, flags);
      SlotFilledMaps(pt, root, k, i, f, n - 1, flags);
      PutSlotGives(was, root, k, i + n - 1, e, flags);
      PutSlotMaps(was, root, k, i + n - 1, e);
      GivesThen(pt, was, PutSlot(was, k, i + n - 1, e), root, (k.1 * 512 + i) * 512, (n - 1) * 512, 512, flags);
    }
  }

  // ----- what a request gives

  /** The flags that a caller who passes `access` gets. */
  predicate AsAsked(access: Flags, flags: Flags) {
    && flags.present && (flags.write <==> access.write || access == NOFLAGS) && (flags.user <==> access.user || access == NOFLAGS)
    && (flags.nx <==> access.nx || flags.write) && flags.other == access.other
  }

  lemma PreparedAsAsked(access: Flags)
    requires Usable(access)
    ensures AsAsked(access, Prepared(access)) && !Prepared(access).slot
  {
  }

  /** A table that was there before the request stands in nobody's way: its link allows what is asked for. */
  ghost predicate Allows(a: PT, c: Place, r: Right) {
    c in a.at ==> Meet(LinkRight(a, c), r) == r
  }

  /** So do all tables on the way to a page. */
  ghost predicate PathAllows(a: PT, b: PT, v: nat, r: Right) {
    && Allows(a, (3, v / 0x800_0000), r) && Allows(a, (2, v / 0x4_0000), r)
    && ((1, v / 512) in b.at ==> Allows(a, (1, v / 512), r))
  }

  lemma LinkGiven(a: PT, b: PT, root: nat, flags: Flags, c: Place)
    requires Ok(a, root) && Ok(b, root) && Grafts(a, b, flags) && c in b.at && c.0 < 4
    ensures LinkRight(b, c) == if c in a.at then LinkRight(a, c) else RightOf(flags)
  {
    hide Ok;
    if c in a.at {
      LinkKept(a, b, root, flags, c);
    }
    hide LinkTo;
  }

  lemma MeetSelf(r: Right)
    ensures Meet(r, r) == r
  {
  }

  lemma MeetThree(x: Right, y: Right, z: Right, r: Right)
    ensures Meet(Meet(x, y), r) == r <==> Meet(x, r) == r && Meet(y, r) == r
    ensures Meet(Meet(x, y), Meet(z, r)) == r <==> Meet(x, r) == r && Meet(y, r) == r && Meet(z, r) == r
  {
  }

  lemma PathIs(pt: PT, root: nat, x: nat, flags: Flags)
    requires Ok(pt, root) && MarkedAs(pt, x, flags)
    ensures PathRights(pt, x) ==
            Some(Meet(Above(pt, x), if (1, x / 512) !in pt.at then RightOf(flags) else Meet(LinkRight(pt, (1, x / 512)), RightOf(flags))))
  {
    BigMark(pt, root, x);
    hide Ok;
    hide Marks;
    hide LinkRight;
    hide Above;
    hide Meet;
  }

  /** The processor grants on a page of the request what was asked for exactly if the tables that were already on its
      way allow it. */
  lemma RightsIff(a: PT, b: PT, root: nat, flags: Flags, x: nat)
    requires Ok(a, root) && Ok(b, root) && Grafts(a, b, flags) && MarkedAs(b, x, flags) && x < VPAGES
    ensures Rights(b.mem, root, 4, x) == Some(RightOf(flags)) <==> PathAllows(a, b, x, RightOf(flags))
  {
    var k3: Place, k2: Place, k1: Place, r := (3, x / 0x800_0000), (2, x / 0x4_0000), (1, x / 512), RightOf(flags);
    hide Ok;
    hide Rights;
    hide Marks;
    hide Grafts;
    hide PathRights;
    hide LinkRight;
    hide Meet;
    RightsRead(b, root, x);
    PathPlaces(b, root, x);
    PathIs(b, root, x, flags);
    hide MarkedAs;
    LinkGiven(a, b, root, flags, k3);
    LinkGiven(a, b, root, flags, k2);
    if k1 in b.at {
      LinkGiven(a, b, root, flags, k1);
    }
    MeetSelf(r);
    MeetThree(LinkRight(b, k3), LinkRight(b, k2), LinkRight(b, k1), r);
  }

  lemma BigMark(pt: PT, root: nat, x: nat)
    requires Ok(pt, root) && Marks(pt, x).Some?
    ensures Marks(pt, x).value.big <==> (1, x / 512) !in pt.at
  {
    assert (1, x / 512) in pt.at ==> PlaceOk(pt.mem, pt.at, (1, x / 512));
    hide Ok;
  }

  /** Elsewhere the rights are what they were. */
  lemma RightsElsewhere(a: PT, b: PT, root: nat, v: nat, n: nat, flags: Flags, x: nat)
    requires Ok(a, root) && Ok(b, root) && Gives(a, b, v, n, flags) && !(v <= x < v + n) && x < VPAGES
    ensures Rights(b.mem, root, 4, x) == Rights(a.mem, root, 4, x)
  {
    hide Ok;
    hide Rights;
    hide Marks;
    hide LinkTo;
    RightsRead(a, root, x);
    RightsRead(b, root, x);
    assert Marks(b, x) == Marks(a, x);
    hide Marked;
    hide Stays;
    if Marks(a, x).Some? {
      PathPlaces(a, root, x);
      BigMark(a, root, x);
      BigMark(b, root, x);
      assert (2, x / 0x4_0000) in b.at && (3, x / 0x800_0000) in b.at;
      hide Grafts;
      LinkKept(a, b, root, flags, (3, x / 0x800_0000));
      LinkKept(a, b, root, flags, (2, x / 0x4_0000));
      if !Marks(a, x).value.big {
        LinkKept(a, b, root, flags, (1, x / 512));
      }
    }
  }

  /** What the processor makes of a request for `n` pages from `v` on. */
  ghost predicate Grants(a: PT, b: PT, root: nat, v: nat, n: nat, flags: Flags) {
    forall x: nat :: x < VPAGES ==>
      if v <= x < v + n then Rights(b.mem, root, 4, x) == Some(RightOf(flags)) <==> PathAllows(a, b, x, RightOf(flags))
      else Rights(b.mem, root, 4, x) == Rights(a.mem, root, 4, x)
  }

  lemma GivesGrants(a: PT, b: PT, root: nat, v: nat, n: nat, flags: Flags)
    requires Ok(a, root) && Ok(b, root) && Gives(a, b, v, n, flags)
    ensures Grants(a, b, root, v, n, flags)
  {
    hide Ok;
    hide Grafts;
    hide MarkedAs;
    hide Rights;
    hide PathAllows;
    forall x: nat | x < VPAGES
      ensures if v <= x < v + n then Rights(b.mem, root, 4, x) == Some(RightOf(flags)) <==> PathAllows(a, b, x, RightOf(flags))
              else Rights(b.mem, root, 4, x) == Rights(a.mem, root, 4, x)
    {
      if v <= x < v + n {
        RightsIff(a, b, root, flags, x);
      } else {
        RightsElsewhere(a, b, root, v, n, flags, x);
      }
    }
  }

  // ----- one pass

  lemma PagesGive(a: PT, b: PT, t: seq<PmmTable.Frag>, root: nat, k: Place, i: nat, v: nat, f: nat, n: nat, flags: Flags, page: nat)
    requires Sound(b, t, root) && Gives(a, b, 0, 0, flags) && flags.present && !flags.slot && i + n <= 512
    requires n > 0 ==> k in b.at && b.at[k] == page && k.0 == 1 && k.1 * 512 + i == v
    ensures Gives(a, b.(mem := Filled(b.mem, page, i, f, n, flags)), v, n, flags)
  {
    hide Ok;
    hide Gives;
    hide Maps;
    hide NoNewLeaf;
    GivesAnywhere(a, b, 0, v, flags);
    if n > 0 {
      FilledMaps(b, root, k, i, f, n, flags);
      FilledGives(b, root, k, i, f, n, flags);
      GivesThen(a, b, FilledPT(b, k, i, f, n, flags), root, v, 0, n, flags);
    }
  }

  lemma SlotsGive(a: PT, b: PT, t: seq<PmmTable.Frag>, root: nat, k: Place, i: nat, v: nat, f: nat, n: nat, flags: Flags)
    requires Sound(b, t, root) && Gives(a, b, 0, 0, flags) && flags.present && i + n <= 512
    requires k in b.at && k.0 == 2 && (k.1 * 512 + i) * 512 == v && f % 512 == 0 && f >= 512
    ensures Gives(a, SlotFilled(b, k, i, f, n, flags), v, n * 512, flags)
  {
    hide Ok;
    hide Gives;
    hide Maps;
    hide SlotLeaf;
    GivesAnywhere(a, b, 0, v, flags);
    SlotFilledMaps(b, root, k, i, f, n, flags);
    SlotFilledGives(b, root, k, i, f, n, flags);
    hide SlotFilled;
    GivesThen(a, b, SlotFilled(b, k, i, f, n, flags), root, v, 0, n * 512, flags);
  }

  // ----- the system call

  /** What `mmap` asks for, as it is entered. */
  const MMAPPED := USER_RW.(nx := true)

  lemma MmapAsks()
    ensures Usable(USER_RW) && Prepared(USER_RW) == MMAPPED
  {
  }

  /** The pages in `m` are writable in user mode, and cannot be executed. */
  ghost predicate Lent(pt: PT, m: set<nat>) {
    forall x <- m :: MarkedAs(pt, x, MMAPPED)
  }

  lemma MarkedMapped(pt: PT, root: nat, x: nat)
    requires Ok(pt, root)
    ensures View(pt, root, x) == None <==> Marks(pt, x) == None
  {
    LookupReads(pt.mem, root, pt.at, x);
    hide Ok;
    hide Tree;
    hide Lookup;
  }

  lemma LentAfter(a: PT, b: PT, root: nat, m: set<nat>, v: nat, n: nat)
    requires Lent(a, m) && Gives(a, b, v, n, MMAPPED) && Unmapped(a, root, v, n)
    ensures Lent(b, m + Range(v, n))
  {
    hide Ok;
    hide Grafts;
    hide Marks;
    hide View;
    forall x <- m + Range(v, n) ensures MarkedAs(b, x, MMAPPED) {
      if x in m {
        assert MarkedAs(a, x, MMAPPED);
        MarkedMapped(a, root, x);
      }
    }
  }

  // ----- tables that were made for an earlier request

  /** A task that has no tables but its top level one. */
  ghost predicate Bare(pt: PT) {
    forall k <- pt.at :: k == (4, 0)
  }

  /** The first request of a task is granted. */
  lemma FirstGranted(a: PT, b: PT, root: nat, flags: Flags, x: nat)
    requires Ok(a, root) && Ok(b, root) && Bare(a) && Grafts(a, b, flags) && MarkedAs(b, x, flags) && x < VPAGES
    ensures Rights(b.mem, root, 4, x) == Some(RightOf(flags))
  {
    hide Ok;
    hide Grafts;
    hide Rights;
    hide LinkRight;
    RightsIff(a, b, root, flags, x);
  }

  lemma TableFromFirst(a: PT, b: PT, root: nat, first: Flags, c: Place)
    requires Ok(a, root) && Ok(b, root) && Bare(a) && Grafts(a, b, first) && c.0 < 4
    ensures Allows(b, c, RightOf(first)) && (c in b.at ==> LinkRight(b, c) == RightOf(first))
  {
    hide Ok;
    hide Grafts;
    hide LinkRight;
    if c in b.at {
      LinkGiven(a, b, root, first, c);
    }
  }

  /** A second one for pages below the same top level entry is granted exactly if it asks for no more than the first. */
  lemma SecondIff(a: PT, b: PT, c: PT, root: nat, first: Flags, v: nat, second: Flags, x: nat)
    requires Ok(a, root) && Ok(b, root) && Ok(c, root) && Bare(a) && v < VPAGES && x < VPAGES
    requires Grafts(a, b, first) && MarkedAs(b, v, first) && Grafts(b, c, second) && MarkedAs(c, x, second)
    requires v / 0x800_0000 == x / 0x800_0000
    ensures Rights(c.mem, root, 4, x) == Some(RightOf(second)) <==> Meet(RightOf(first), RightOf(second)) == RightOf(second)
  {
    var k3: Place, k2: Place, k1: Place := (3, x / 0x800_0000), (2, x / 0x4_0000), (1, x / 512);
    hide Ok;
    hide Grafts;
    hide Rights;
    hide LinkRight;
    hide Marks;
    PathPlaces(b, root, v);
    RightsIff(b, c, root, second, x);
    TableFromFirst(a, b, root, first, k3);
    TableFromFirst(a, b, root, first, k2);
    TableFromFirst(a, b, root, first, k1);
    hide Meet;
  }

  /** So a page that is mapped for writing behind a read-only one cannot be written, and code behind data cannot run. */
  lemma SecondExample(other: nat)
    ensures var text, data := Flags(true, false, true, false, false, other), USER_RW;
            && Meet(RightOf(Prepared(text)), RightOf(Prepared(data))) != RightOf(Prepared(data))
            && Meet(RightOf(Prepared(data)), RightOf(Prepared(text))) != RightOf(Prepared(text))
  {
  }
}
