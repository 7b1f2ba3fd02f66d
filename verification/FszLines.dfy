/** What the kernel's `fs_locate` makes of any path whatever: of paths with a line end in them, where it
    stops, and of paths that the builder does not find. */
module FszLines {
  import opened Options
  import opened FszNames
  import opened FszImage
  import opened FszLookup
  import opened FszKernel

  // ---------- the line end ----------

  lemma {:induction false} WordWithin(r: string)
    ensures WordEnd(r) <= LineEnd(r) && WordEnd(r[..LineEnd(r)]) == WordEnd(r)
  {
    if r != "" && r[0] != '\n' {
      var q := r[..LineEnd(r)];
      assert q[0] == r[0] && q[1..] == r[1..][..LineEnd(r[1..])];
      if r[0] != '/' {
        WordWithin(r[1..]);
      }
    }
  }

  lemma LineAfter(r: string, n: nat)
    requires n <= LineEnd(r)
    ensures LineEnd(r[n..]) == LineEnd(r) - n
  {
    var t, l := r[n..], LineEnd(r) - n;
    assert forall i :: 0 <= i < l ==> t[i] == r[n + i];
    assert l < |t| ==> t[l] == r[n + l];
  }

  lemma WordEndCut(r: string)
    ensures var n, q := WordEnd(r), r[..LineEnd(r)];
            && WordEnd(q) == n <= |q| && r[..n] == q[..n] && (AtEnd(q, n) <==> AtEnd(r, n))
            && r[n..][..LineEnd(r[n..])] == q[n..]
  {
    WordWithin(r);
    hide WordEnd;
    LineAfter(r, WordEnd(r));
    hide LineEnd;
  }

  /** What follows a line end in a path makes no difference to the kernel. */
  lemma {:induction false} LineCut(img: Image, d: nat, p: string)
    ensures KernelLocate(img, d, p) == KernelLocate(img, d, p[..LineEnd(p)])
    decreases |p|
  {
    hide KernelFind;
    hide WordEnd;
    hide LineEnd;
    WordEndCut(p);
    var n := WordEnd(p);
    var r := KernelFind(img, d, p[..n]);
    if r.Some? && !AtEnd(p, n) {
      LineCut(img, r.value.fid, p[n..]);
    }
  }

  // ---------- every path ----------

  /** `e` is the first of the entries whose name begins with `w`. */
  ghost predicate Leads(es: seq<DirEnt>, w: string, e: DirEnt) {
    exists k :: 0 <= k < |es| && es[k] == e && w <= e.name && forall j :: 0 <= j < k ==> !(w <= es[j].name)
  }

  lemma {:induction false} ScanLeads(es: seq<DirEnt>, i: nat, w: string)
    requires i <= |es| && forall j :: 0 <= j < i ==> !(w <= es[j].name)
    ensures match KernelScan(es, i, w)
            case Some(e) => Leads(es, w, e)
            case None => forall j :: 0 <= j < |es| ==> !(w <= es[j].name)
    decreases |es| - i
  {
    if i < |es| && !(w <= es[i].name) {
      ScanLeads(es, i + 1, w);
    }
  }

  /** What the kernel finds in a directory: the first entry whose name begins with the word. */
  lemma KernelFindIs(img: Image, d: nat, w: string, e: DirEnt)
    requires Inv(img) && d < |img| && IsDir(img[d])
    ensures Dense(img[d].node.body) && (KernelFind(img, d, w) == Some(e) <==> Leads(Used(img[d].node), w, e))
  {
    hide Crc32c;
    hide SumOk;
    hide LinksOk;
    assert SectorOk(img, img[d]);
    var es := Used(img[d].node);
    ScanLeads(es, 0, w);
    if KernelScan(es, 0, w).Some? && Leads(es, w, e) {
      LeadsOne(es, w, e, KernelScan(es, 0, w).value);
    }
  }

  lemma LeadsOne(es: seq<DirEnt>, w: string, e: DirEnt, x: DirEnt)
    requires Leads(es, w, e) && Leads(es, w, x)
    ensures e == x
  {
    var k :| 0 <= k < |es| && es[k] == e && w <= e.name && forall j :: 0 <= j < k ==> !(w <= es[j].name);
    var l :| 0 <= l < |es| && es[l] == x && w <= x.name && forall j :: 0 <= j < l ==> !(w <= es[j].name);
    assert k == l;
  }

  /** In the directories on the way both readers find the same. */
  lemma WayFound(img: Image, d: nat, p: string)
    requires Inv(img) && FszNames.Plain(p) && 0 < Slash(p) < |p|
    ensures KernelFind(img, d, p[..Slash(p) + 1]) == Find(img, d, p)
  {
    hide Inv;
    hide KernelFind;
    hide Find;
    hide Holds;
    var w := p[..Slash(p) + 1];
    if Find(img, d, p).Some? {
      var e := Find(img, d, p).value;
      FindIs(img, d, p, e);
      KernelFindExact(img, d, w, e);
    } else if KernelFind(img, d, w).Some? {
      var x := KernelFind(img, d, w).value;
      KernelHolds(img, d, w);
      HeldInside(img, d, x);
      NamePlain(x.name, IsDir(img[x.fid]));
      assert x.name[Slash(p)] == w[Slash(p)] == '/';
      assert x.name == w;
      FindIs(img, d, p, x);
    }
  }

  /** Where the last word of a path begins; a slash at the end belongs to it. */
  function LastWord(q: string): (s: nat)
    ensures s <= |q|
    decreases |q|
  {
    var n := Slash(q);
    if n + 1 >= |q| then 0 else n + 1 + LastWord(q[n + 1..])
  }

  /** The inode of the first entry, in the directory that the builder finds for all words but the last,
      whose name begins with the last. */
  function Sought(img: Image, d: nat, q: string): Option<nat> {
    match Locate(img, d, q[..LastWord(q)])
    case None => None
    case Some(f) => match KernelFind(img, f, q[LastWord(q)..]) case None => None case Some(e) => Some(e.fid)
  }

  lemma SoughtHere(img: Image, d: nat, q: string)
    requires Slash(q) + 1 >= |q|
    ensures Sought(img, d, q) == match KernelFind(img, d, q) case None => None case Some(e) => Some(e.fid)
  {
    hide KernelFind;
    hide Find;
    assert q[..0] == "" && q[0..] == q;
  }

  lemma WayOnward(img: Image, d: nat, q: string, s: nat)
    requires d != 0 && 0 < Slash(q) && Slash(q) + 1 + s <= |q|
    ensures Locate(img, d, q[..Slash(q) + 1 + s]) ==
            match Find(img, d, q) { case None => None case Some(e) => Locate(img, e.fid, q[Slash(q) + 1..][..s]) }
  {
    hide Find;
    hide Locate;
    var n := Slash(q);
    var way := q[..n + 1 + s];
    SlashWithin(q, n + 1 + s);
    FindWithin(img, d, q, n + 1 + s);
    hide Slash;
    assert way[n + 1..] == q[n + 1..][..s];
    LocateUnfold(img, d, way, way);
  }

  lemma SoughtOnward(img: Image, d: nat, q: string)
    requires d != 0 && 0 < Slash(q) && Slash(q) + 1 < |q|
    ensures Sought(img, d, q) == match Find(img, d, q) case None => None case Some(e) => Sought(img, e.fid, q[Slash(q) + 1..])
  {
    hide KernelFind;
    hide Find;
    hide Locate;
    hide Slash;
    hide LastWord;
    var n, rest := Slash(q), q[Slash(q) + 1..];
    LastOnward(q);
    WayOnward(img, d, q, LastWord(rest));
  }

  lemma LastOnward(q: string)
    requires Slash(q) + 1 < |q|
    ensures var n, rest := Slash(q), q[Slash(q) + 1..];
            LastWord(q) == n + 1 + LastWord(rest) && q[LastWord(q)..] == rest[LastWord(rest)..]
  {
    hide Slash;
  }

  lemma {:induction false} SlashWithin(q: string, m: nat)
    requires Slash(q) < m <= |q|
    ensures Slash(q[..m]) == Slash(q)
  {
    if q[0] != '/' {
      assert q[..m][1..] == q[1..][..m - 1];
      SlashWithin(q[1..], m - 1);
    }
  }

  lemma FindWithin(img: Image, d: nat, q: string, m: nat)
    requires Slash(q) < m <= |q|
    ensures Find(img, d, q[..m]) == Find(img, d, q)
  {
    if d < |img| && IsDir(img[d]) {
      ScanWithin(img[d].node.body.slots, 0, q, m);
    }
  }

  lemma {:induction false} ScanWithin(slots: seq<DirEnt>, i: nat, q: string, m: nat)
    requires Slash(q) < m <= |q| && i <= |slots|
    ensures Scan(slots, i, q[..m]) == Scan(slots, i, q)
    decreases |slots| - i
  {
    hide Hit;
    if i < |slots| {
      HitWithin(slots[i].name, q, m);
      ScanWithin(slots, i + 1, q, m);
    }
  }

  lemma HitWithin(name: string, q: string, m: nat)
    requires Slash(q) < m <= |q|
    ensures Hit(name, q[..m]) == Hit(name, q)
  {
    hide StrnEq;
    SlashWithin(q, m);
    StrnWithin(name, q, m, Slash(q) + 1);
    StrnWithin(name, q, m, Slash(q));
  }

  lemma {:induction false} StrnWithin(a: string, b: string, m: nat, n: nat)
    requires n <= m <= |b|
    ensures StrnEq(a, b[..m], n) == StrnEq(a, b, n)
    decreases n
  {
    if n > 0 && a != "" {
      assert b[..m][1..] == b[1..][..m - 1];
      StrnWithin(a[1..], b[1..], m - 1, n - 1);
    }
  }

  /** On every path of one line, found by the builder or not, the kernel finds the first entry that begins with
      the last word, in the directory where the words before lead; and nothing if there is an empty word. */
  lemma {:induction false} KernelSeeks(img: Image, d: nat, q: string)
    requires Inv(img) && d != 0 && FszNames.Plain(q) && NoLine(q)
    ensures KernelLocate(img, d, q) == if q != "" && !Clean(q) then None else Sought(img, d, q)
    decreases |q|
  {
    hide Inv;
    hide KernelFind;
    hide Find;
    hide Sought;
    hide WordEnd;
    hide FszNames.Plain;
    if q == "" {
      SoughtHere(img, d, q);
      WordOf(q);
    } else if q[0] == '/' {
      WordOf(q);
      NoSuchName(img, d);
      assert q[..1] == "/";
    } else {
      var n := Slash(q);
      WordOf(q);
      if n + 1 >= |q| {
        PlainComponent(q);
        SoughtHere(img, d, q);
        assert q[..|q|] == q;
      } else {
        PlainComponent(q);
        SoughtOnward(img, d, q);
        WayFound(img, d, q);
        if Find(img, d, q).Some? {
          FoundComponent(img, d, q);
          PlainTail(q, n + 1);
          KernelSeeks(img, Find(img, d, q).value.fid, q[n + 1..]);
        }
      }
    }
  }

  lemma PlainComponent(q: string)
    requires FszNames.Plain(q) && Slash(q) > 0
    ensures Component(q[..Slash(q)])
  {
  }

  lemma {:induction false} WordOf(q: string)
    requires NoLine(q)
    ensures WordEnd(q) == if Slash(q) < |q| then Slash(q) + 1 else |q|
  {
    if q != "" && q[0] != '/' {
      WordOf(q[1..]);
    }
  }

  /** The whole of it: any path is cut at its line end, and then sought. */
  lemma KernelIs(img: Image, d: nat, p: string)
    requires Inv(img) && d != 0 && FszNames.Plain(p)
    ensures var q := p[..LineEnd(p)];
            KernelLocate(img, d, p) == if q != "" && !Clean(q) then None else Sought(img, d, q)
  {
    hide Inv;
    hide KernelLocate;
    hide Clean;
    hide Sought;
    LineCut(img, d, p);
    KernelSeeks(img, d, p[..LineEnd(p)]);
  }

  // ---------- found by the builder, sought by the kernel ----------

  /** Entries lead to inodes further on, as in every image that the builder makes. */
  ghost predicate Downward(img: Image) {
    forall d: nat, e :: Holds(img, d, e) ==> d < e.fid
  }

  /** What the builder finds is the root, or has its entry in the directory it starts from or further on. */
  lemma {:induction false} LocateEntry(img: Image, f: nat, p: string, g: nat) returns (d: nat, e: DirEnt)
    requires Inv(img) && Downward(img) && f != 0 && p != "" && FszNames.Plain(p) && Locate(img, f, p) == Some(g)
    ensures g == RootOf(img) || (Holds(img, d, e) && e.fid == g && d >= f)
    decreases |p|
  {
    hide Inv;
    hide Holds;
    hide Find;
    hide Slash;
    hide Locate;
    hide FszNames.Plain;
    var q := if p[0] == '/' then p[1..] else p;
    PlainTail(p, 1);
    LocateUnfold(img, f, p, q);
    d, e := f, FREE;
    if q != "" {
      e := Find(img, f, q).value;
      FindIs(img, f, q, e);
      if Slash(q) < |q| {
        var rest := q[Slash(q) + 1..];
        if rest == "" {
          NoPath(img, e.fid);
        } else {
          PlainTail(q, Slash(q) + 1);
          d, e := LocateEntry(img, e.fid, rest, g);
        }
      }
    }
  }

  /** Of the entries of a directory that begin with `w`, the first is `e`. */
  ghost predicate Foremost(img: Image, d: nat, w: string, e: DirEnt) {
    d < |img| && IsDir(img[d]) && Dense(img[d].node.body) && Leads(Used(img[d].node), w, e)
  }

  lemma ForemostFound(img: Image, d: nat, w: string, e: DirEnt)
    requires Inv(img)
    ensures KernelFind(img, d, w) == Some(e) <==> Foremost(img, d, w, e)
  {
    hide Inv;
    hide Leads;
    hide IsDir;
    hide KernelScan;
    if d < |img| && IsDir(img[d]) {
      KernelFindIs(img, d, w, e);
    }
  }

  /** The line ends in the last component, not at its beginning after a slash, and of the entries that begin
      with the part before the line end, the one looked for is the first. */
  ghost predicate CutRight(img: Image, d: nat, p: string)
    decreases |p|
  {
    var n, l := Slash(p), LineEnd(p);
    match Find(img, d, p)
    case None => false
    case Some(e) =>
      if l < n then |p| <= n + 1 && Foremost(img, d, p[..l], e)
      else 0 < n && n + 1 < |p| && p[n + 1] != '\n' && CutRight(img, e.fid, p[n + 1..])
  }

  lemma CutWord(p: string)
    ensures WordEnd(p) == if LineEnd(p) <= Slash(p) then LineEnd(p) else Slash(p) + 1
  {
    var q := p[..LineEnd(p)];
    WordWithin(p);
    WordOf(q);
    if LineEnd(p) <= Slash(p) {
      assert forall i :: 0 <= i < |q| ==> q[i] == p[i];
    } else {
      SlashWithin(p, LineEnd(p));
    }
  }

  lemma {:induction false} RefsTwo(img: Image, f: nat, n: nat, c: nat, d: nat)
    requires c < d < n <= |img|
    ensures Refs(img, f, n) >= RefsIn(img[c], f) + RefsIn(img[d], f)
  {
    hide RefsIn;
    if d < n - 1 {
      RefsTwo(img, f, n - 1, c, d);
    } else {
      RefsAtLeast(img, f, n - 1, c);
    }
  }

  lemma HeldCounts(img: Image, d: nat, e: DirEnt)
    requires Holds(img, d, e)
    ensures RefsIn(img[d], e.fid) >= 1
  {
    hide Count;
    var es := Used(img[d].node);
    var i :| 0 <= i < |es| && es[i] == e;
    CountAt(es, Fid(e.fid), i);
  }

  /** An inode with entries in two directories has at least two links. */
  lemma TwoPlaces(img: Image, c: nat, x: DirEnt, d: nat, e: DirEnt)
    requires Inv(img) && Holds(img, c, x) && Holds(img, d, e) && c < d && x.fid == e.fid
    ensures e.fid < |img| && img[e.fid].INode? && img[e.fid].node.numlinks >= 2
  {
    hide Inv;
    hide Refs;
    hide RefsIn;
    HeldInside(img, d, e);
    HeldCounts(img, c, x);
    HeldCounts(img, d, e);
    RefsTwo(img, e.fid, |img|, c, d);
    LinksFrom(img, e.fid);
  }

  ghost predicate Single(img: Image, g: nat) {
    g < |img| && img[g].INode? && img[g].node.numlinks == 1
  }

  lemma RootIs(img: Image)
    requires Inv(img)
    ensures RootOf(img) == 1
  {
    hide SectorOk;
    hide LinksOk;
  }

  /** What is found further on is not what is found here. */
  lemma NotHere(img: Image, d: nat, e: DirEnt, x: DirEnt, rest: string, g: nat)
    requires Inv(img) && Downward(img) && d != 0 && Holds(img, d, e) && Holds(img, d, x)
    requires rest != "" && FszNames.Plain(rest) && Locate(img, e.fid, rest) == Some(g) && Single(img, g)
    ensures x.fid != g
  {
    hide Inv;
    hide Holds;
    hide Locate;
    hide FszNames.Plain;
    RootIs(img);
    var f, y := LocateEntry(img, e.fid, rest, g);
    if x.fid == g {
      TwoPlaces(img, d, x, f, y);
    }
  }

  lemma {:induction false} CutIff(img: Image, d: nat, p: string, g: nat)
    requires Inv(img) && Downward(img) && d != 0 && FszNames.Plain(p) && LineEnd(p) < |p|
    requires Locate(img, d, p) == Some(g) && Single(img, g)
    ensures KernelLocate(img, d, p) == Some(g) <==> CutRight(img, d, p)
    decreases |p|
  {
    hide Inv;
    hide Holds;
    hide Find;
    hide KernelFind;
    hide Slash;
    hide LineEnd;
    hide Locate;
    hide Downward;
    hide Single;
    hide WordEnd;
    hide FszNames.Plain;
    CutWord(p);
    if p[0] == '/' {
      NoSuchName(img, d);
      assert p[..1] == "/";
      assert Slash(p) == 0 && LineEnd(p) != 0;
    } else {
      Located(img, d, p);
      FoundComponent(img, d, p);
      LocateStep(img, d, p);
      var n, l, e := Slash(p), LineEnd(p), Find(img, d, p).value;
      PlainTail(p, if n < |p| then n + 1 else n);
      if l < n {
        CutHere(img, d, p, g);
      } else {
        WayFound(img, d, p);
        var rest := p[n + 1..];
        assert rest[0] == p[n + 1];
        if rest[0] == '\n' {
          NotHere(img, d, e, e, rest, g);
        } else {
          LineAfter(p, n + 1);
          CutIff(img, e.fid, rest, g);
        }
      }
    }
  }

  lemma CutHere(img: Image, d: nat, p: string, g: nat)
    requires Inv(img) && Downward(img) && d != 0 && FszNames.Plain(p) && LineEnd(p) < Slash(p)
    requires p[0] != '/' && Find(img, d, p).Some? && Locate(img, d, p) == Some(g) && Single(img, g)
    ensures KernelLocate(img, d, p) == Some(g) <==> CutRight(img, d, p)
  {
    hide Inv;
    hide Holds;
    hide Find;
    hide KernelFind;
    hide Slash;
    hide LineEnd;
    hide Locate;
    hide Downward;
    hide WordEnd;
    hide FszNames.Plain;
    CutWord(p);
    FoundComponent(img, d, p);
    LocateStep(img, d, p);
    var n, l, e := Slash(p), LineEnd(p), Find(img, d, p).value;
    var w := p[..l];
    ForemostFound(img, d, w, e);
    hide Foremost;
    if KernelFind(img, d, w).Some? {
      KernelHolds(img, d, w);
      var x := KernelFind(img, d, w).value;
      if n + 1 < |p| {
        PlainTail(p, n + 1);
        NotHere(img, d, e, x, p[n + 1..], g);
      } else {
        NoPath(img, e.fid);
        assert n < |p| ==> p[n + 1..] == "";
        if x != e && x.fid == g {
          TwoLinks(img, d, e, x);
        }
      }
    }
  }

  /** When the kernel finds what the builder finds: a path of one line without empty components that is not
      shadowed, or one whose part before the line end leads to the same entry. */
  ghost predicate Seen(img: Image, d: nat, p: string) {
    if NoLine(p) then Clean(p) && !ShadowedPath(img, d, p) else CutRight(img, d, p)
  }

  /** For every path that the builder finds. */
  lemma KernelAgreesIff(img: Image, d: nat, p: string, g: nat)
    requires Inv(img) && d != 0 && p != "" && FszNames.Plain(p) && Locate(img, d, p) == Some(g)
    requires Single(img, g) && (NoLine(p) || Downward(img))
    ensures KernelLocate(img, d, p) == Some(g) <==> Seen(img, d, p)
  {
    hide Inv;
    hide Locate;
    hide KernelLocate;
    hide Clean;
    hide ShadowedPath;
    hide CutRight;
    hide Downward;
    hide FszNames.Plain;
    if NoLine(p) {
      OneLineIff(img, d, p, g);
    } else {
      CutIff(img, d, p, g);
    }
  }

  /** A name with a line end, next to the one that it begins with: the builder finds it, and the kernel takes the other. */
  lemma LineExample(img: Image, d: nat, w: string, v: string, a: nat, b: nat)
    requires Inv(img) && d != 0 && Component(w) && NoLine(w) && Component(w + "\n" + v)
    requires Holds(img, d, DirEnt(a, w)) && Holds(img, d, DirEnt(b, w + "\n" + v))
    ensures Locate(img, d, w + "\n" + v) == Some(b) && KernelLocate(img, d, w + "\n" + v) == Some(a)
  {
    hide Inv;
    hide Holds;
    hide Find;
    hide KernelFind;
    hide Locate;
    var p, e := w + "\n" + v, DirEnt(b, w + "\n" + v);
    LastGoes(p, p);
    FindIs(img, d, p, e);
    LocateStep(img, d, p);
    CutWord(p);
    assert p[|w|] == '\n' && p[..|w|] == w && forall i :: 0 <= i < |w| ==> p[i] == w[i];
    assert LineEnd(p) == |w|;
    hide WordEnd;
    KernelFindExact(img, d, w, DirEnt(a, w));
  }

  /** The kernel finds something, whether or not the builder does, exactly when a name begins with the last word. */
  lemma KernelFindsSome(img: Image, d: nat, p: string)
    requires Inv(img) && d != 0 && FszNames.Plain(p)
    ensures var q := p[..LineEnd(p)];
            var f := Locate(img, d, q[..LastWord(q)]);
            KernelLocate(img, d, p).Some? <==>
            (q == "" || Clean(q)) && f.Some? && exists e :: Holds(img, f.value, e) && q[LastWord(q)..] <= e.name
  {
    hide Inv;
    hide KernelLocate;
    hide Locate;
    hide Clean;
    hide KernelFind;
    hide LineEnd;
    hide LastWord;
    hide FszNames.Plain;
    hide Holds;
    KernelIs(img, d, p);
    var q := p[..LineEnd(p)];
    var f := Locate(img, d, q[..LastWord(q)]);
    if f.Some? {
      NameFound(img, f.value, q[LastWord(q)..]);
    }
  }

  lemma NameFound(img: Image, d: nat, w: string)
    requires Inv(img)
    ensures KernelFind(img, d, w).Some? <==> exists e :: Holds(img, d, e) && w <= e.name
  {
    hide Inv;
    if KernelFind(img, d, w).Some? {
      KernelHolds(img, d, w);
    } else if exists e :: Holds(img, d, e) && w <= e.name {
      ScanLeads(Used(img[d].node), 0, w);
    }
  }
}
