/** The kernel's `fs_locate` finds what the builder's `locate` finds, although it takes the first name
    that begins with the component looked for. */
module FszKernel {
  import opened Options
  import opened FszNames
  import opened FszImage
  import opened FszLookup

  /** The loop over the entries: the first whose name begins with `w`. */
  function KernelScan(es: seq<DirEnt>, i: nat, w: string): Option<DirEnt>
    requires i <= |es|
    decreases |es| - i
  {
    if i == |es| then None else if w <= es[i].name then Some(es[i]) else KernelScan(es, i + 1, w)
  }

  /** Up to and with the next slash, or up to the end or a line end. */
  function WordEnd(r: string): (n: nat)
    ensures n <= |r| && (n == 0 ==> r == "" || r[0] == '\n')
  {
    if r == "" || r[0] == '\n' then 0 else if r[0] == '/' then 1 else 1 + WordEnd(r[1..])
  }

  predicate AtEnd(r: string, n: nat) {
    n >= |r| || r[n] == '\n'
  }

  function KernelFind(img: Image, d: nat, w: string): Option<DirEnt> {
    if d < |img| && IsDir(img[d]) && img[d].node.body.numentries <= |img[d].node.body.slots|
    then KernelScan(Used(img[d].node), 0, w) else None
  }

  /** The inode that the path `r` leads to from the directory at `d`. */
  function KernelLocate(img: Image, d: nat, r: string): Option<nat>
    decreases |r|
  {
    var n := WordEnd(r);
    match KernelFind(img, d, r[..n])
    case None => None
    case Some(e) => if AtEnd(r, n) then Some(e.fid) else KernelLocate(img, e.fid, r[n..])
  }

  lemma {:induction false} KernelScanFirst(es: seq<DirEnt>, i: nat, w: string, j: nat) returns (k: nat)
    requires i <= j < |es| && w <= es[j].name
    ensures i <= k <= j && KernelScan(es, i, w) == Some(es[k]) && w <= es[k].name
    decreases |es| - i
  {
    if w <= es[i].name {
      k := i;
    } else {
      k := KernelScanFirst(es, i + 1, w, j);
    }
  }

  lemma Earlier(es: seq<DirEnt>, i: nat, j: nat)
    requires InOrder(es) && i < |es| && j < |es| && i != j && EntCmp(es[i], es[j]) < 0
    ensures i < j
  {
    CaseFlip(es[i].name, es[j].name);
  }

  /** When an entry has exactly the name looked for, it is the first that begins with it. */
  lemma ExactIsFirst(es: seq<DirEnt>, w: string, e: DirEnt)
    requires InOrder(es) && Unique(es) && e in es && e.name == w
    ensures KernelScan(es, 0, w) == Some(e)
  {
    hide InOrder;
    hide KernelScan;
    var j :| 0 <= j < |es| && es[j] == e;
    var i := KernelScanFirst(es, 0, w, j);
    if i != j {
      assert es[i].name != w;
      PrefixFirst(w, es[i].name);
      Earlier(es, j, i);
    }
  }

  /** Another name begins with `w` and sorts before `w` with a slash. */
  predicate Shadowed(es: seq<DirEnt>, w: string) {
    exists x :: x in es && w < x.name && Lower(x.name[|w|]) < '/'
  }

  lemma SlashDecides(a: string, w: string)
    requires w < a && a[|w|] != '/'
    ensures CaseCmp(a, w + "/") < 0 <==> Lower(a[|w|]) < '/'
    ensures CaseCmp(w + "/", a) < 0 <==> Lower(a[|w|]) > '/'
  {
    NextDecides(w, a, w + "/");
    NextDecides(w, w + "/", a);
    var t, u := a[|w|..], (w + "/")[|w|..];
    assert u == "/" && t[0] == a[|w|];
    assert Lower(t[0]) != '/';
  }

  lemma OtherName(img: Image, es: seq<DirEnt>, j: nat, i: nat, w: string)
    requires Unique(es) && (forall e :: e in es ==> EntryOk(img, e)) && i < |es| && j < |es| && i != j
    requires es[j].name == w + "/" && w <= es[i].name
    ensures w < es[i].name && es[i].name[|w|] != '/'
  {
    var a := es[i].name;
    assert Stem(a) != Stem(es[j].name);
    assert es[i] in es && es[j] in es;
    NamePlain(a, IsDir(img[es[i].fid]));
    NamePlain(es[j].name, IsDir(img[es[j].fid]));
    assert Stem(es[j].name) == w;
    assert a == w + a[|w|..];
  }

  /** A directory that is looked for without its slash is found when nothing shadows it; */
  lemma DirIsFirst(img: Image, es: seq<DirEnt>, w: string, j: nat)
    requires InOrder(es) && Unique(es) && (forall e :: e in es ==> EntryOk(img, e)) && !Shadowed(es, w)
    requires j < |es| && es[j].name == w + "/"
    ensures KernelScan(es, 0, w) == Some(es[j])
  {
    hide InOrder;
    hide KernelScan;
    hide Unique;
    hide EntryOk;
    var i := KernelScanFirst(es, 0, w, j);
    if i != j {
      OtherName(img, es, j, i, w);
      assert Lower(es[i].name[|w|]) >= '/';
      assert Lower(es[i].name[|w|]) != '/';
      SlashDecides(es[i].name, w);
      Earlier(es, j, i);
    }
  }

  /** otherwise something else is. */
  lemma DirIsShadowed(img: Image, es: seq<DirEnt>, w: string, j: nat)
    requires InOrder(es) && Unique(es) && (forall e :: e in es ==> EntryOk(img, e)) && Shadowed(es, w)
    requires j < |es| && es[j].name == w + "/"
    ensures exists k :: 0 <= k < |es| && k != j && KernelScan(es, 0, w) == Some(es[k])
  {
    hide InOrder;
    hide KernelScan;
    hide Unique;
    hide EntryOk;
    var x :| x in es && w < x.name && Lower(x.name[|w|]) < '/';
    var k :| 0 <= k < |es| && es[k] == x;
    OtherName(img, es, j, k, w);
    SlashDecides(x.name, w);
    Earlier(es, k, j);
    var i := KernelScanFirst(es, 0, w, k);
  }

  /** Such a directory: the kernel takes another one for it. */
  lemma ShadowExample(a: nat, b: nat)
    ensures var es := [DirEnt(a, "foo-bar"), DirEnt(b, "foo/")];
            InOrder(es) && Unique(es) && KernelScan(es, 0, "foo") == Some(es[0])
  {
    var es := [DirEnt(a, "foo-bar"), DirEnt(b, "foo/")];
    assert "foo" <= es[0].name;
    SlashDecides("foo-bar", "foo");
    assert "foo" + "/" == "foo/";
    assert Stem("foo-bar") == "foo-bar" && |Stem("foo/")| == 3;
  }

  // ---------- whole paths ----------

  /** Components between single slashes, perhaps with one at the end. */
  predicate Clean(p: string)
    decreases |p|
  {
    var n := Slash(p);
    Component(p[..n]) && (n + 1 < |p| ==> Clean(p[n + 1..]))
  }

  lemma {:induction false} CleanWord(p: string, n: nat)
    requires n <= Slash(p) && Component(p[..Slash(p)]) && NoLine(p)
    ensures WordEnd(p[n..]) == (if Slash(p) < |p| then Slash(p) + 1 else |p|) - n
    decreases |p| - n
  {
    if n < Slash(p) {
      assert p[n..][0] == p[n] == p[..Slash(p)][n];
      assert p[n..][1..] == p[n + 1..];
      CleanWord(p, n + 1);
    } else if n < |p| {
      assert p[n..][0] == '/';
    }
  }

  lemma CleanPlain(p: string)
    requires Clean(p)
    ensures Plain(p) && p != "" && p[0] != '/'
  {
    var n := Slash(p);
    assert p[0] == p[..n][0];
    if n + 1 < |p| {
      CleanPlain(p[n + 1..]);
    }
    forall i | 0 <= i < |p| ensures p[i] != NUL {
      if i < n {
        assert p[i] == p[..n][i];
      } else if i > n {
        assert p[i] == p[n + 1..][i - n - 1];
      }
    }
  }

  /** The path ends in a directory without its slash, and that is shadowed. */
  ghost predicate ShadowedPath(img: Image, d: nat, p: string)
    decreases |p|
  {
    match Find(img, d, p)
    case None => false
    case Some(e) =>
      if Slash(p) == |p| then e.name == p + "/" && exists x :: Holds(img, d, x) && p < x.name && Lower(x.name[|p|]) < '/'
      else Slash(p) + 1 < |p| && ShadowedPath(img, e.fid, p[Slash(p) + 1..])
  }

  lemma KernelFindExact(img: Image, d: nat, w: string, e: DirEnt)
    requires Inv(img) && Holds(img, d, e) && e.name == w
    ensures KernelFind(img, d, w) == Some(e)
  {
    hide Crc32c;
    hide LinksOk;
    hide SumOk;
    assert SectorOk(img, img[d]);
    ExactIsFirst(Used(img[d].node), w, e);
  }

  lemma KernelFindDir(img: Image, d: nat, w: string, e: DirEnt)
    requires Inv(img) && Holds(img, d, e) && e.name == w + "/"
    ensures var s := exists x :: Holds(img, d, x) && w < x.name && Lower(x.name[|w|]) < '/';
            if s then KernelFind(img, d, w).Some? && Holds(img, d, KernelFind(img, d, w).value) && KernelFind(img, d, w).value != e
            else KernelFind(img, d, w) == Some(e)
  {
    hide Crc32c;
    hide LinksOk;
    hide SumOk;
    assert SectorOk(img, img[d]);
    var es := Used(img[d].node);
    var j :| 0 <= j < |es| && es[j] == e;
    assert forall x :: x in es <==> Holds(img, d, x);
    if Shadowed(es, w) {
      DirIsShadowed(img, es, w, j);
      var k :| 0 <= k < |es| && k != j && KernelScan(es, 0, w) == Some(es[k]);
      assert Stem(es[k].name) != Stem(es[j].name);
    } else {
      DirIsFirst(img, es, w, j);
    }
  }

  /** Every path that the builder finds, the kernel finds in the same place, unless it is shadowed. */
  lemma {:induction false} KernelAgrees(img: Image, d: nat, p: string, g: nat)
    requires Inv(img) && d != 0 && Clean(p) && NoLine(p) && Locate(img, d, p) == Some(g) && !ShadowedPath(img, d, p)
    ensures KernelLocate(img, d, p) == Some(g)
    decreases |p|
  {
    hide Inv;
    hide Holds;
    hide Find;
    hide KernelFind;
    hide Slash;
    hide Locate;
    hide FszNames.Plain;
    hide WordEnd;
    CleanPlain(p);
    CleanWord(p, 0);
    CleanTail(p);
    Located(img, d, p);
    hide Clean;
    assert p[0..] == p;
    var n, e := Slash(p), Find(img, d, p).value;
    FindIs(img, d, p, e);
    LocateStep(img, d, p);
    if n == |p| {
      assert p[..n] == p;
      if e.name == p {
        KernelFindExact(img, d, p, e);
      } else {
        assert e.name == p + "/";
        KernelFindDir(img, d, p, e);
      }
    } else {
      KernelFindExact(img, d, p[..n + 1], e);
      HeldInside(img, d, e);
      if n + 1 < |p| {
        CleanPlain(p[n + 1..]);
        KernelAgrees(img, e.fid, p[n + 1..], g);
      } else {
        NoPath(img, e.fid);
        assert p[n + 1..] == "";
      }
    }
  }

  lemma DirName(name: string, dir: bool, p: string)
    requires EntryName(name, dir)
    ensures name == p + "/" ==> dir
  {
    NamePlain(name, dir);
    assert name == p + "/" ==> name[|p|] == '/';
  }

  /** A file, or a path with a slash at the end, is never shadowed. */
  lemma {:induction false} NotShadowed(img: Image, d: nat, p: string, g: nat)
    requires Inv(img) && d != 0 && Clean(p) && Locate(img, d, p) == Some(g)
    requires p != "" && (p[|p| - 1] == '/' || (g < |img| && !IsDir(img[g])))
    ensures !ShadowedPath(img, d, p)
    decreases |p|
  {
    hide Inv;
    hide Holds;
    hide Find;
    hide IsDir;
    hide EntryName;
    hide Slash;
    hide Locate;
    hide Goes;
    hide FszNames.Plain;
    CleanPlain(p);
    CleanTail(p);
    Located(img, d, p);
    var n, e := Slash(p), Find(img, d, p).value;
    FindIs(img, d, p, e);
    HeldInside(img, d, e);
    DirName(e.name, IsDir(img[e.fid]), p);
    hide EntryOk;
    hide Clean;
    LocateStep(img, d, p);
    if n == |p| {
      assert p[|p| - 1] != '/';
    } else if n + 1 < |p| {
      CleanPlain(p[n + 1..]);
      NotShadowed(img, e.fid, p[n + 1..], g);
    }
  }

  lemma CleanTail(p: string)
    requires Clean(p)
    ensures Slash(p) + 1 < |p| ==> Clean(p[Slash(p) + 1..])
  {
  }

  lemma NoPath(img: Image, f: nat)
    ensures Locate(img, f, "") == Some(f)
  {
  }

  lemma Located(img: Image, d: nat, p: string)
    requires d != 0 && p != "" && p[0] != '/' && Locate(img, d, p).Some?
    ensures Find(img, d, p).Some?
  {
    hide Find;
  }

  lemma {:induction false} RefsAtLeast(img: Image, f: nat, n: nat, d: nat)
    requires d < n <= |img|
    ensures Refs(img, f, n) >= RefsIn(img[d], f)
  {
    hide RefsIn;
    if d < n - 1 {
      RefsAtLeast(img, f, n - 1, d);
    }
  }

  lemma CountTwo(es: seq<DirEnt>, e: DirEnt, x: DirEnt)
    requires e in es && x in es && e != x && e.fid == x.fid
    ensures Count(es, Fid(e.fid)) >= 2
  {
    hide Count;
    var i :| 0 <= i < |es| && es[i] == e;
    var j :| 0 <= j < |es| && es[j] == x;
    CountAt(es, Fid(e.fid), i);
    assert Has(es[j], Fid(e.fid)) && j != i;
  }

  lemma LinksFrom(img: Image, f: nat)
    requires Inv(img) && f < |img| && img[f].INode?
    ensures img[f].node.numlinks >= Refs(img, f, |img|)
  {
    hide SectorOk;
    hide Refs;
    assert LinksOk(img, f);
  }

  /** An inode with two entries has at least two links. */
  lemma TwoLinks(img: Image, d: nat, e: DirEnt, x: DirEnt)
    requires Inv(img) && Holds(img, d, e) && Holds(img, d, x) && e != x && e.fid == x.fid
    ensures e.fid < |img| && img[e.fid].INode? && img[e.fid].node.numlinks >= 2
  {
    hide Inv;
    hide Refs;
    hide Count;
    HeldInside(img, d, e);
    LinksFrom(img, e.fid);
    CountTwo(Used(img[d].node), e, x);
    RefsAtLeast(img, e.fid, |img|, d);
  }

  /** A shadowed directory, unless it is linked twice, is mistaken. */
  lemma {:induction false} KernelMistakes(img: Image, d: nat, p: string, g: nat)
    requires Inv(img) && d != 0 && Clean(p) && NoLine(p) && Locate(img, d, p) == Some(g) && ShadowedPath(img, d, p)
    requires g < |img| && img[g].INode? && img[g].node.numlinks == 1
    ensures KernelLocate(img, d, p) != Some(g)
    decreases |p|
  {
    hide Inv;
    hide Holds;
    hide Find;
    hide KernelFind;
    hide Slash;
    hide Locate;
    hide FszNames.Plain;
    hide WordEnd;
    CleanPlain(p);
    CleanWord(p, 0);
    CleanTail(p);
    Located(img, d, p);
    hide Clean;
    assert p[0..] == p;
    var n, e := Slash(p), Find(img, d, p).value;
    FindIs(img, d, p, e);
    LocateStep(img, d, p);
    if n == |p| {
      assert p[..n] == p;
      KernelFindDir(img, d, p, e);
      var x := KernelFind(img, d, p).value;
      if x.fid == e.fid {
        TwoLinks(img, d, e, x);
      }
    } else {
      KernelFindExact(img, d, p[..n + 1], e);
      HeldInside(img, d, e);
      CleanPlain(p[n + 1..]);
      KernelMistakes(img, e.fid, p[n + 1..], g);
    }
  }

  /** No name begins with a slash. */
  lemma NoSuchName(img: Image, d: nat)
    requires Inv(img)
    ensures KernelFind(img, d, "/") == None
  {
    hide Inv;
    hide EntryOk;
    if KernelFind(img, d, "/").Some? {
      KernelHolds(img, d, "/");
      var e := KernelFind(img, d, "/").value;
      HeldInside(img, d, e);
      NameStart(img, e);
    }
  }

  lemma NameStart(img: Image, e: DirEnt)
    requires EntryOk(img, e)
    ensures !("/" <= e.name)
  {
    NamePlain(e.name, IsDir(img[e.fid]));
    assert e.name[0] == '/' ==> |e.name| == 1;
  }

  lemma KernelHolds(img: Image, d: nat, w: string)
    requires Inv(img) && KernelFind(img, d, w).Some?
    ensures Holds(img, d, KernelFind(img, d, w).value) && w <= KernelFind(img, d, w).value.name
  {
    hide Crc32c;
    hide SumOk;
    hide LinksOk;
    assert SectorOk(img, img[d]);
    KernelScanIn(Used(img[d].node), 0, w);
  }

  lemma {:induction false} KernelScanIn(es: seq<DirEnt>, i: nat, w: string)
    requires i <= |es| && KernelScan(es, i, w).Some?
    ensures KernelScan(es, i, w).value in es && w <= KernelScan(es, i, w).value.name
    decreases |es| - i
  {
    if !(w <= es[i].name) {
      KernelScanIn(es, i + 1, w);
    }
  }

  /** The first component of a path that is found is one: it is the name of an entry. */
  lemma FoundComponent(img: Image, d: nat, p: string)
    requires Inv(img) && FszNames.Plain(p) && Find(img, d, p).Some?
    ensures var e := Find(img, d, p).value;
            Component(p[..Slash(p)]) && Holds(img, d, e) && Goes(e.name, p) && e.fid != 0
  {
    hide Inv;
    hide Find;
    hide Holds;
    var e := Find(img, d, p).value;
    FindIs(img, d, p, e);
    HeldInside(img, d, e);
    StemComponent(e.name, IsDir(img[e.fid]));
    GoesStem(e.name, IsDir(img[e.fid]), p);
  }

  lemma StemComponent(name: string, dir: bool)
    requires EntryName(name, dir)
    ensures Component(Stem(name))
  {
    NamePlain(name, dir);
  }

  /** A path with an empty component, which the builder skips, is nothing to the kernel. */
  lemma {:induction false} UncleanNotFound(img: Image, d: nat, p: string, g: nat)
    requires Inv(img) && d != 0 && p != "" && FszNames.Plain(p) && Locate(img, d, p) == Some(g) && !Clean(p) && NoLine(p)
    ensures KernelLocate(img, d, p) == None
    decreases |p|
  {
    hide Inv;
    hide Holds;
    hide Find;
    hide KernelFind;
    hide Slash;
    hide Locate;
    hide FszNames.Plain;
    if p[0] == '/' {
      NoSuchName(img, d);
      assert p[..1] == "/";
    } else {
      Located(img, d, p);
      FoundComponent(img, d, p);
      LocateStep(img, d, p);
      CleanWord(p, 0);
      assert p[0..] == p;
      var n, e := Slash(p), Find(img, d, p).value;
      hide WordEnd;
      KernelFindExact(img, d, p[..n + 1], e);
      PlainTail(p, n + 1);
      UncleanNotFound(img, e.fid, p[n + 1..], g);
    }
  }

  /** For every path of one line that the builder finds: the kernel finds the same inode exactly when there is
      no empty component in the path and it is not shadowed. */
  lemma OneLineIff(img: Image, d: nat, p: string, g: nat)
    requires Inv(img) && d != 0 && p != "" && FszNames.Plain(p) && NoLine(p) && Locate(img, d, p) == Some(g)
    requires g < |img| && img[g].INode? && img[g].node.numlinks == 1
    ensures KernelLocate(img, d, p) == Some(g) <==> Clean(p) && !ShadowedPath(img, d, p)
  {
    hide *;
    if !Clean(p) {
      UncleanNotFound(img, d, p, g);
    } else if ShadowedPath(img, d, p) {
      KernelMistakes(img, d, p, g);
    } else {
      KernelAgrees(img, d, p, g);
    }
  }

  /** A slash in front makes no difference to the builder, and hides everything from the kernel. */
  lemma LeadingSlash(img: Image, p: string, g: nat)
    requires Inv(img) && p != "" && p[0] != '/' && Locate(img, 0, p) == Some(g)
    ensures Locate(img, 0, "/" + p) == Some(g) && KernelLocate(img, 1, "/" + p) == None
  {
    hide Inv;
    hide Find;
    hide KernelFind;
    hide Locate;
    hide Slash;
    var q := "/" + p;
    NoSuchName(img, 1);
    assert q[1..] == p && q[..1] == "/";
    LocateUnfold(img, 0, q, p);
    LocateUnfold(img, 0, p, p);
    assert WordEnd(q) == 1;
    hide WordEnd;
  }

  /** No path at all is, to the kernel, the first entry of the directory. */
  lemma EmptyPath(img: Image, d: nat)
    requires Inv(img) && d < |img| && IsDir(img[d])
    ensures Locate(img, d, "") == Some(d)
    ensures KernelLocate(img, d, "") ==
            if img[d].node.body.numentries == 0 then None else Some(img[d].node.body.slots[0].fid)
  {
    hide Crc32c;
    hide SumOk;
    hide LinksOk;
    hide InOrder;
    hide Unique;
    hide EntryOk;
    assert SectorOk(img, img[d]);
    hide Inv;
    hide SectorOk;
    assert ""[..0] == "";
  }
}
