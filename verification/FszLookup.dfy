/** Finding a path in an image: by the builder's `locate`, by the walk of `link_inode`, and by the
    kernel's `fs_locate`, which compares only as much of a name as the path has. */
module FszLookup {
  import opened Options
  import opened FszNames
  import opened FszImage
  import opened FszSteps

  // ---------- one directory ----------

  /** The builder's comparison: the component with its slash or end; or, at the end of the path, a directory's name before its slash. */
  predicate Hit(name: string, q: string) {
    var ns := Slash(q);
    StrnEq(name, q, ns + 1) || (StrnEq(name, q, ns) && ns == |q| && At(name, ns) == '/')
  }

  /** What that amounts to. */
  predicate Goes(name: string, q: string) {
    var ns := Slash(q);
    if ns < |q| then name == q[..ns + 1] else Stem(name) == q
  }

  lemma HitIs(name: string, dir: bool, q: string)
    requires EntryName(name, dir) && Plain(q)
    ensures Hit(name, q) <==> Goes(name, q)
  {
    var ns := Slash(q);
    NamePlain(name, dir);
    StrnEqIs(name, q, ns + 1);
    StrnEqIs(name, q, ns);
    if ns < |q| {
      if q[..ns + 1] <= name {
        assert name[ns] == q[ns] == '/';
        assert |name| == ns + 1;
      }
    } else {
      assert q[..ns] == q;
      if q <= name && At(name, ns) == '/' {
        assert |name| == ns + 1;
        assert name[..ns] == q;
      }
    }
  }

  /** The only slash in a name is the one at the end. */
  lemma NamePlain(name: string, dir: bool)
    requires EntryName(name, dir)
    ensures Plain(name) && name != "" && forall i :: 0 <= i < |name| && name[i] == '/' ==> dir && i == |name| - 1
  {
    if dir {
      forall i | 0 <= i < |name| - 1 ensures name[i] != '/' && name[i] != NUL {
        assert name[i] == name[..|name| - 1][i];
      }
    }
  }

  lemma GoesStem(name: string, dir: bool, q: string)
    requires EntryName(name, dir) && Goes(name, q)
    ensures Stem(name) == q[..Slash(q)]
  {
    if Slash(q) < |q| {
      assert name[..|name| - 1] == q[..Slash(q)];
    } else {
      assert q[..Slash(q)] == q;
    }
  }

  lemma SlotOk(img: Image, node: Inode, i: nat)
    requires node.body.Entries? && DirOk(img, node)
    ensures node.body.numentries <= |node.body.slots| == SLOTS
    ensures i < SLOTS ==> (node.body.slots[i].fid != 0 <==> i < node.body.numentries)
    ensures i < node.body.numentries ==> node.body.slots[i] in Used(node) && EntryOk(img, node.body.slots[i])
  {
    hide Crc32c;
    hide EntryOk;
    if i < node.body.numentries {
      assert Used(node)[i] == node.body.slots[i];
    }
  }

  /** The loop over the slots, until a free one. */
  function Scan(slots: seq<DirEnt>, i: nat, q: string): Option<DirEnt>
    requires i <= |slots|
    decreases |slots| - i
  {
    if i == |slots| || slots[i].fid == 0 then None
    else if Hit(slots[i].name, q) then Some(slots[i])
    else Scan(slots, i + 1, q)
  }

  /** It finds the entry that the path goes to. */
  lemma {:induction false} ScanFrom(img: Image, node: Inode, i: nat, q: string)
    requires node.body.Entries? && DirOk(img, node) && Plain(q) && i <= SLOTS
    ensures match Scan(node.body.slots, i, q)
            case Some(e) => e in Used(node) && Goes(e.name, q)
            case None => forall j :: i <= j < node.body.numentries ==> !Goes(node.body.slots[j].name, q)
    decreases SLOTS - i
  {
    hide DirOk;
    hide Hit;
    hide Goes;
    SlotOk(img, node, i);
    if i < SLOTS && node.body.slots[i].fid != 0 {
      var e := node.body.slots[i];
      HitIs(e.name, IsDir(img[e.fid]), q);
      ScanFrom(img, node, i + 1, q);
    }
  }

  lemma ScanIs(img: Image, node: Inode, q: string, e: DirEnt)
    requires node.body.Entries? && DirOk(img, node) && Plain(q)
    ensures Scan(node.body.slots, 0, q) == Some(e) <==> e in Used(node) && Goes(e.name, q)
  {
    hide Crc32c;
    hide Goes;
    ScanFrom(img, node, 0, q);
    var es := Used(node);
    if e in es && Goes(e.name, q) {
      var i :| 0 <= i < |es| && es[i] == e;
      assert node.body.slots[i] == e;
      var r := Scan(node.body.slots, 0, q);
      assert r.Some? && r.value in es && Goes(r.value.name, q);
      var j :| 0 <= j < |es| && es[j] == r.value;
      assert EntryOk(img, es[i]) && EntryOk(img, es[j]);
      GoesStem(es[i].name, IsDir(img[es[i].fid]), q);
      GoesStem(es[j].name, IsDir(img[es[j].fid]), q);
      assert i == j;
    }
  }

  /** The directory at `d` has entry `e`. */
  predicate Holds(img: Image, d: nat, e: DirEnt) {
    d < |img| && IsDir(img[d]) && Dense(img[d].node.body) && e in Used(img[d].node)
  }

  function Find(img: Image, d: nat, q: string): Option<DirEnt> {
    if d < |img| && IsDir(img[d]) then Scan(img[d].node.body.slots, 0, q) else None
  }

  lemma FindIs(img: Image, d: nat, q: string, e: DirEnt)
    requires Inv(img) && Plain(q)
    ensures Find(img, d, q) == Some(e) <==> Holds(img, d, e) && Goes(e.name, q)
  {
    hide Crc32c;
    hide SumOk;
    hide Goes;
    hide Scan;
    hide LinksOk;
    if d < |img| && IsDir(img[d]) {
      assert SectorOk(img, img[d]);
      ScanIs(img, img[d].node, q, e);
    }
  }

  // ---------- `locate` ----------

  function RootOf(img: Image): nat {
    if img != [] && img[0].Super? then img[0].root else 0
  }

  /** The inode at the end of a path; nothing of a path means the place it starts from. */
  function Locate(img: Image, f: nat, p: string): Option<nat>
    decreases |p|
  {
    if p == "" then Some(f)
    else
      var q := if p[0] == '/' then p[1..] else p;
      if q == "" then Some(RootOf(img))
      else
        match Find(img, if f != 0 then f else RootOf(img), q)
        case None => None
        case Some(e) => if Slash(q) == |q| then Some(e.fid) else Locate(img, e.fid, q[Slash(q) + 1..])
  }

  /** The image has grown: directories keep their entries. */
  ghost predicate Grown(a: Image, b: Image) {
    RootOf(a) == RootOf(b) && forall i: nat, e :: Holds(a, i, e) ==> Holds(b, i, e)
  }

  lemma AppendGrown(a: Image, ss: seq<Sector>)
    requires a != []
    ensures Grown(a, a + ss)
  {
  }

  /** The directory at `d` has the new entry, and every entry that it had. */
  lemma LinkEnters(a: Image, b: Image, d: nat, e: DirEnt, time: nat, x: DirEnt)
    requires Link(a, b, d, e, time) && e.fid != 0
    ensures Holds(b, d, e) && (Holds(a, d, x) ==> Holds(b, d, x))
  {
    hide Crc32c;
    hide SumOk;
    hide HeaderBytes;
    EnteredDense(a[d].node, b[d].node, e, time);
    EnteredMembers(a[d].node, b[d].node, e, time, e);
    EnteredMembers(a[d].node, b[d].node, e, time, x);
    hide Dense;
  }

  lemma LinkElsewhere(a: Image, b: Image, d: nat, e: DirEnt, time: nat, i: nat, x: DirEnt)
    requires Link(a, b, d, e, time) && i != d && Holds(a, i, x)
    ensures Holds(b, i, x)
  {
    hide Crc32c;
    hide HeaderBytes;
    hide Entered;
    hide Dense;
  }

  lemma LinkGrown(a: Image, b: Image, d: nat, e: DirEnt, time: nat)
    requires Link(a, b, d, e, time) && e.fid != 0 && d != 0 && a[0].Super?
    ensures Grown(a, b) && Holds(b, d, e)
  {
    hide Entered;
    hide Holds;
    hide Summed;
    LinkEnters(a, b, d, e, time, e);
    forall i: nat, x | Holds(a, i, x) ensures Holds(b, i, x) {
      if i == d {
        LinkEnters(a, b, d, e, time, x);
      } else {
        LinkElsewhere(a, b, d, e, time, i, x);
      }
    }
  }

  /** A path that has been found is found again, in the same place, in every larger image. */
  lemma {:induction false} LocateKept(a: Image, b: Image, f: nat, p: string, g: nat)
    requires Inv(a) && Inv(b) && Grown(a, b) && Plain(p) && Locate(a, f, p) == Some(g)
    ensures Locate(b, f, p) == Some(g)
    decreases |p|
  {
    hide Inv;
    hide Goes;
    hide Find;
    hide Holds;
    hide RootOf;
    hide Slash;
    hide Plain;
    if p != "" {
      var q := if p[0] == '/' then p[1..] else p;
      LocateUnfold(a, f, p, q);
      LocateUnfold(b, f, p, q);
      hide Locate;
      PlainTail(p, 1);
      if q != "" {
        var d := if f != 0 then f else RootOf(a);
        var e := Find(a, d, q).value;
        FindIs(a, d, q, e);
        FindIs(b, d, q, e);
        if Slash(q) < |q| {
          PlainTail(q, Slash(q) + 1);
          LocateKept(a, b, e.fid, q[Slash(q) + 1..], g);
        }
      }
    }
  }

  // ---------- where a path is entered ----------

  /** The loop of `link_inode`. */
  function ScanLink(slots: seq<DirEnt>, i: nat, p: string): Option<DirEnt>
    requires i <= |slots|
    decreases |slots| - i
  {
    if i == |slots| || slots[i].fid == 0 then None
    else if StrnEq(slots[i].name, p, Slash(p) + 1) then Some(slots[i])
    else ScanLink(slots, i + 1, p)
  }

  function FindLink(img: Image, d: nat, p: string): Option<DirEnt> {
    if d < |img| && IsDir(img[d]) then ScanLink(img[d].node.body.slots, 0, p) else None
  }

  /** The directory where a path is to be entered, and what is left of the path there; nothing if the
      path is there already. */
  function Walk(img: Image, d: nat, p: string): Option<(nat, string)>
    decreases |p|
  {
    match FindLink(img, d, p)
    case None => Some((d, p))
    case Some(e) => if Slash(p) == |p| then None else Walk(img, e.fid, p[Slash(p) + 1..])
  }

  lemma {:induction false} ScanLinkIs(img: Image, node: Inode, i: nat, p: string)
    requires node.body.Entries? && DirOk(img, node) && Plain(p) && i <= SLOTS && Slash(p) < |p|
    ensures match ScanLink(node.body.slots, i, p)
            case Some(e) => e in Used(node) && e.name == p[..Slash(p) + 1] && EntryOk(img, e)
            case None => true
    decreases SLOTS - i
  {
    hide Crc32c;
    if i < SLOTS && node.body.slots[i].fid != 0 {
      var e := node.body.slots[i];
      assert e == Used(node)[i];
      assert EntryOk(img, e);
      HitIs(e.name, IsDir(img[e.fid]), p);
      ScanLinkIs(img, node, i + 1, p);
    }
  }

  lemma DirAt(img: Image, d: nat)
    requires Inv(img) && d < |img| && IsDir(img[d])
    ensures DirOk(img, img[d].node) && Dense(img[d].node.body)
  {
    hide LinksOk;
    hide SumOk;
    hide Crc32c;
    assert SectorOk(img, img[d]);
  }

  lemma FindLinkIs(img: Image, d: nat, p: string)
    requires Inv(img) && Plain(p) && Slash(p) < |p| && FindLink(img, d, p).Some?
    ensures var e := FindLink(img, d, p).value; Holds(img, d, e) && Goes(e.name, p) && e.fid != 0 && p[0] != '/'
  {
    hide Inv;
    hide DirOk;
    hide Dense;
    hide ScanLink;
    hide Plain;
    hide EntryName;
    hide Slash;
    DirAt(img, d);
    ScanLinkIs(img, img[d].node, 0, p);
    var e := FindLink(img, d, p).value;
    GoesFirst(e.name, IsDir(img[e.fid]), p);
  }

  lemma GoesFirst(name: string, dir: bool, p: string)
    requires EntryName(name, dir) && Slash(p) < |p| && name == p[..Slash(p) + 1]
    ensures p[0] != '/'
  {
    NamePlain(name, dir);
    assert name[0] == p[0];
  }

  lemma LastGoes(name: string, p: string)
    requires Component(p) && Stem(name) == p
    ensures Slash(p) == |p| && Plain(p) && p != "" && p[0] != '/' && Goes(name, p)
  {
  }

  lemma PlainTail(p: string, n: nat)
    requires Plain(p) && n <= |p|
    ensures Plain(p[n..])
  {
  }

  lemma LocateUnfold(img: Image, f: nat, path: string, q: string)
    requires path != "" && q == (if path[0] == '/' then path[1..] else path)
    ensures q == "" ==> Locate(img, f, path) == Some(RootOf(img))
    ensures q != "" ==>
              (var e := Find(img, if f != 0 then f else RootOf(img), q);
               Locate(img, f, path) == if e.None? then None
                                       else if Slash(q) == |q| then Some(e.value.fid)
                                       else Locate(img, e.value.fid, q[Slash(q) + 1..]))
  {
    hide Find;
    hide Slash;
    hide RootOf;
  }

  lemma LocateStep(img: Image, f: nat, p: string)
    requires f != 0 && p != "" && p[0] != '/' && Find(img, f, p).Some?
    ensures var e := Find(img, f, p).value;
            Locate(img, f, p) == if Slash(p) == |p| then Some(e.fid) else Locate(img, e.fid, p[Slash(p) + 1..])
  {
    hide Find;
    hide Slash;
    hide Locate;
    LocateUnfold(img, f, p, p);
  }

  /** Once the rest of a path has been entered where the walk ended, the whole path is found. */
  lemma {:induction false} WalkLocates(a: Image, b: Image, f: nat, p: string, d: nat, e: DirEnt)
    requires Inv(a) && Inv(b) && Grown(a, b) && Plain(p) && f != 0
    requires Walk(a, f, p).Some? && Walk(a, f, p).value.0 == d && Component(Walk(a, f, p).value.1)
    requires Stem(e.name) == Walk(a, f, p).value.1 && Holds(b, d, e)
    ensures Locate(b, f, p) == Some(e.fid) && p != "" && p[0] != '/'
    decreases |p|
  {
    hide Inv;
    hide Holds;
    hide Find;
    hide FindLink;
    hide Goes;
    hide Stem;
    hide Component;
    hide Locate;
    hide Slash;
    hide Plain;
    if FindLink(a, f, p).None? {
      LastGoes(e.name, p);
      FindIs(b, d, p, e);
      LocateStep(b, f, p);
    } else {
      var x := FindLink(a, f, p).value;
      FindLinkIs(a, f, p);
      FindIs(b, f, p, x);
      LocateStep(b, f, p);
      PlainTail(p, Slash(p) + 1);
      WalkLocates(a, b, x.fid, p[Slash(p) + 1..], d, e);
    }
  }

  /** Appending sectors does not change where a path leads. */
  lemma {:induction false} WalkAppend(a: Image, ss: seq<Sector>, d: nat, p: string)
    requires Inv(a) && d < |a| && FszNames.Plain(p)
    ensures Walk(a + ss, d, p) == Walk(a, d, p)
    decreases |p|
  {
    hide Inv;
    hide Slash;
    hide Goes;
    hide FszNames.Plain;
    FindLinkAppend(a, ss, d, p);
    hide FindLink;
    if FindLink(a, d, p).Some? && Slash(p) < |p| {
      FindLinkIs(a, d, p);
      HeldInside(a, d, FindLink(a, d, p).value);
      PlainTail(p, Slash(p) + 1);
      WalkAppend(a, ss, FindLink(a, d, p).value.fid, p[Slash(p) + 1..]);
    }
  }

  lemma FindLinkAppend(a: Image, ss: seq<Sector>, d: nat, p: string)
    requires d < |a|
    ensures FindLink(a + ss, d, p) == FindLink(a, d, p)
  {
    assert (a + ss)[d] == a[d];
  }

  lemma HeldInside(img: Image, d: nat, e: DirEnt)
    requires Inv(img) && Holds(img, d, e)
    ensures EntryOk(img, e)
  {
    hide Crc32c;
    hide LinksOk;
    hide SumOk;
    assert SectorOk(img, img[d]);
  }
}
