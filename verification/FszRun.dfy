/** Building an image, step by step: what every step keeps, and what is found at the end. */
module FszRun {
  import opened Options
  import opened Crc
  import opened FszNames
  import opened FszImage
  import opened FszSteps
  import opened FszLookup
  import opened FszFiles
  import opened FszKernel
  import opened FszLines

  datatype Step = MakeDir(path: string) | MakeFile(path: string, data: seq<Byte>) | MakeSymlink(path: string, target: seq<Byte>)

  /** Names are kept in 111 bytes, with a zero at the end. */
  const MOST_NAME := 110

  /** The kernel keeps the number of an inode in a signed integer of 32 bits. */
  const MOST_SECTORS := 0x8000_0000

  /** A path can be entered: all directories on it are there, and the last one has room and not that name. */
  predicate Enterable(img: Image, path: string) {
    && FszNames.Plain(path) && Walk(img, 1, path).Some?
    && var (d, rest) := Walk(img, 1, path).value;
    && Component(rest) && |rest| + 1 <= MOST_NAME
    && 0 < d < |img| && IsDir(img[d]) && img[d].node.body.numentries < SLOTS
    && img[d].node.body.numentries <= |img[d].node.body.slots| && Unused(Used(img[d].node), rest)
  }

  /** The step can be done: the path is free, and the file is not too big. */
  predicate Possible(img: Image, s: Step) {
    Enterable(img, s.path) && (s.MakeFile? ==> !TooBig(s.data))
  }

  /** The sectors that a step appends. */
  predicate Makes(img: Image, s: Step, ss: seq<Sector>) {
    && ss != [] && ss[0].INode?
    && match s
       case MakeDir(_) => |ss| == 1 && New(ss[0]) && IsDir(ss[0])
       case MakeSymlink(_, target) => |ss| == 1 && New(ss[0]) && !IsDir(ss[0]) && ss[0].node.body.Bytes? && target <= ss[0].node.body.data
       case MakeFile(_, data) => !TooBig(data) && FileProto(ss[0].node) && ss == FileSectors(|img|, data, ss[0].node)
  }

  function NameFor(s: Step, rest: string): string {
    if s.MakeDir? then rest + "/" else rest
  }

  /** A step: sectors are appended, and their inode is entered where the path leads. */
  ghost predicate Did(a: Image, b: Image, s: Step, ss: seq<Sector>, time: nat) {
    && Possible(a, s) && Makes(a, s, ss)
    && var (d, rest) := Walk(a, 1, s.path).value;
    Link(a + ss, b, d, DirEnt(|a|, NameFor(s, rest)), time)
  }

  lemma MakesNew(img: Image, s: Step, ss: seq<Sector>)
    requires Makes(img, s, ss)
    ensures (forall x :: x in ss ==> New(x)) && (IsDir(ss[0]) <==> s.MakeDir?)
  {
    hide SumOk;
    hide FileSectors;
    if s.MakeFile? {
      FileSectorsNew(|img|, s.data, ss[0].node);
    }
  }

  lemma NameForOk(s: Step, rest: string)
    requires Component(rest)
    ensures EntryName(NameFor(s, rest), s.MakeDir?) && Stem(NameFor(s, rest)) == rest && Stem(rest) == rest
  {
    assert (rest + "/")[..|rest|] == rest;
  }

  /** Every step keeps the image well formed. */
  lemma DidInv(a: Image, b: Image, s: Step, ss: seq<Sector>, time: nat)
    requires Inv(a) && Did(a, b, s, ss, time)
    ensures Inv(a + ss) && Inv(b)
  {
    hide Inv;
    hide Walk;
    hide New;
    hide Makes;
    hide Link;
    hide DirOk;
    var (d, rest) := Walk(a, 1, s.path).value;
    var e := DirEnt(|a|, NameFor(s, rest));
    MakesNew(a, s, ss);
    AppendInv(a, ss);
    NameForOk(s, rest);
    FirstMade(a, s, ss);
    assert (a + ss)[d] == a[d];
    assert (a + ss)[|a|] == ss[0];
    assert a != [];
    LinkInv(a + ss, b, d, e, time);
  }

  lemma FirstMade(a: Image, s: Step, ss: seq<Sector>)
    requires Makes(a, s, ss)
    ensures ss != [] && ss[0].INode?
  {
  }

  lemma InvRoot(img: Image)
    requires Inv(img)
    ensures |img| >= 2 && img[0].Super? && RootOf(img) == 1
  {
    hide SectorOk;
    hide LinksOk;
  }

  lemma GrownTrans(a: Image, b: Image, c: Image)
    requires Grown(a, b) && Grown(b, c)
    ensures Grown(a, c)
  {
    hide Holds;
    hide RootOf;
  }

  lemma StayTrans(a: Image, b: Image, c: Image)
    requires FilesStay(a, b) && FilesStay(b, c)
    ensures FilesStay(a, c)
  {
  }

  lemma DidGrows(a: Image, b: Image, s: Step, ss: seq<Sector>, time: nat)
    requires Inv(a) && Did(a, b, s, ss, time)
    ensures Grown(a, b) && FilesStay(a, b) && |a| < |b|
  {
    hide Walk;
    hide Makes;
    hide Link;
    hide Inv;
    hide Grown;
    hide FilesStay;
    var (d, rest) := Walk(a, 1, s.path).value;
    var e := DirEnt(|a|, NameFor(s, rest));
    InvRoot(a);
    FirstMade(a, s, ss);
    AppendGrown(a, ss);
    AppendStay(a, ss);
    assert (a + ss)[0] == a[0];
    LinkGrown(a + ss, b, d, e, time);
    LinkStay(a + ss, b, d, e, time);
    LinkLength(a + ss, b, d, e, time);
    GrownTrans(a, a + ss, b);
    StayTrans(a, a + ss, b);
  }

  lemma LinkLength(a: Image, b: Image, d: nat, e: DirEnt, time: nat)
    requires Link(a, b, d, e, time)
    ensures |a| == |b|
  {
    hide Entered;
  }

  /** A path is found as soon as it has been entered. */
  lemma DidFinds(a: Image, b: Image, s: Step, ss: seq<Sector>, time: nat)
    requires Inv(a) && Did(a, b, s, ss, time)
    ensures Locate(b, 0, s.path) == Some(|a|)
  {
    hide Walk;
    hide Makes;
    hide Link;
    hide Inv;
    hide Grown;
    hide Locate;
    hide Holds;
    var (d, rest) := Walk(a, 1, s.path).value;
    var e := DirEnt(|a|, NameFor(s, rest));
    DidInv(a, b, s, ss, time);
    DidGrows(a, b, s, ss, time);
    InvRoot(a);
    InvRoot(b);
    NameForOk(s, rest);
    assert (a + ss)[0] == a[0];
    LinkGrown(a + ss, b, d, e, time);
    WalkLocates(a, b, 1, s.path, d, e);
    FromRoot(b, s.path);
  }

  lemma FromRoot(img: Image, p: string)
    requires RootOf(img) == 1 && p != "" && p[0] != '/'
    ensures Locate(img, 0, p) == Locate(img, 1, p)
  {
    hide Find;
  }

  /** What is known of a file that was added: it is found at its path, with its size and its bytes. */
  ghost predicate Stored(img: Image, p: string, f: nat, data: seq<Byte>) {
    f < |img| && img[f].INode? && !IsDir(img[f]) && img[f].node.size == |data|
    && Locate(img, 0, p) == Some(f) && Contents(img, f) == Some(data)
  }

  lemma DidStores(a: Image, b: Image, s: Step, ss: seq<Sector>, time: nat)
    requires Inv(a) && Did(a, b, s, ss, time) && s.MakeFile? && !Lost(s.data)
    ensures Stored(b, s.path, |a|, s.data)
  {
    hide Walk;
    hide Link;
    hide Inv;
    hide Contents;
    hide Locate;
    hide New;
    hide FileSectors;
    DidFinds(a, b, s, ss, time);
    var (d, rest) := Walk(a, 1, s.path).value;
    var e := DirEnt(|a|, NameFor(s, rest));
    var m := a + ss;
    assert m[|a|] == ss[0];
    MakesNew(a, s, ss);
    FileReadsBack(a, s.data, ss[0].node);
    FileSize(|a|, s.data, ss[0].node);
    LinkStay(m, b, d, e, time);
    ContentsStay(m, b, |a|, s.data);
  }

  lemma FileSize(base: nat, data: seq<Byte>, proto: Inode)
    requires !TooBig(data)
    ensures FileSectors(base, data, proto)[0].node.size == |data|
  {
    hide FileTail;
    hide HeaderBytes;
    hide Crc32c;
  }

  // ---------- runs ----------

  /** A run of the builder: `imgs[i + 1]` is what step `i` makes of `imgs[i]`. */
  ghost predicate Run(imgs: seq<Image>, steps: seq<Step>, made: seq<seq<Sector>>, times: seq<nat>) {
    && |imgs| == |steps| + 1 && |made| == |steps| == |times|
    && Inv(imgs[0])
    && forall i :: 0 <= i < |steps| ==> Did(imgs[i], imgs[i + 1], steps[i], made[i], times[i])
  }

  /** Every image of a run is well formed. */
  lemma {:induction false} RunInv(imgs: seq<Image>, steps: seq<Step>, made: seq<seq<Sector>>, times: seq<nat>, k: nat)
    requires Run(imgs, steps, made, times) && k < |imgs|
    ensures Inv(imgs[k])
  {
    hide Inv;
    hide Did;
    if k > 0 {
      RunInv(imgs, steps, made, times, k - 1);
      assert Did(imgs[k - 1], imgs[k - 1 + 1], steps[k - 1], made[k - 1], times[k - 1]);
      DidInv(imgs[k - 1], imgs[k], steps[k - 1], made[k - 1], times[k - 1]);
    }
  }

  lemma {:induction false} RunGrows(imgs: seq<Image>, steps: seq<Step>, made: seq<seq<Sector>>, times: seq<nat>, i: nat, k: nat)
    requires Run(imgs, steps, made, times) && i <= k < |imgs|
    ensures Grown(imgs[i], imgs[k]) && FilesStay(imgs[i], imgs[k])
    decreases k
  {
    hide Inv;
    hide Did;
    hide FilesStay;
    hide Grown;
    if i == k {
      Unchanged(imgs[i]);
    } else {
      RunGrows(imgs, steps, made, times, i, k - 1);
      RunInv(imgs, steps, made, times, k - 1);
      assert Did(imgs[k - 1], imgs[k - 1 + 1], steps[k - 1], made[k - 1], times[k - 1]);
      DidGrows(imgs[k - 1], imgs[k], steps[k - 1], made[k - 1], times[k - 1]);
      GrownTrans(imgs[i], imgs[k - 1], imgs[k]);
      StayTrans(imgs[i], imgs[k - 1], imgs[k]);
    }
  }

  lemma Unchanged(a: Image)
    ensures Grown(a, a) && FilesStay(a, a)
  {
  }

  /** Every path that was entered is found in every later image, with its own inode. */
  lemma PathsFound(imgs: seq<Image>, steps: seq<Step>, made: seq<seq<Sector>>, times: seq<nat>, i: nat, k: nat)
    requires Run(imgs, steps, made, times) && i < k < |imgs|
    ensures Locate(imgs[k], 0, steps[i].path) == Some(|imgs[i]|)
  {
    hide Inv;
    hide FilesStay;
    hide Grown;
    hide Locate;
    hide Walk;
    hide Link;
    hide Makes;
    assert Did(imgs[i], imgs[i + 1], steps[i], made[i], times[i]);
    RunInv(imgs, steps, made, times, i);
    DidFinds(imgs[i], imgs[i + 1], steps[i], made[i], times[i]);
    RunInv(imgs, steps, made, times, i + 1);
    RunInv(imgs, steps, made, times, k);
    RunGrows(imgs, steps, made, times, i + 1, k);
    LocateKept(imgs[i + 1], imgs[k], 0, steps[i].path, |imgs[i]|);
  }

  /** A path that can be entered has no empty component. */
  lemma {:induction false} WalkClean(img: Image, d: nat, p: string)
    requires Inv(img) && FszNames.Plain(p) && Walk(img, d, p).Some? && Component(Walk(img, d, p).value.1)
    ensures Clean(p)
    decreases |p|
  {
    hide Inv;
    hide FindLink;
    hide Holds;
    hide FszNames.Plain;
    if FindLink(img, d, p).None? {
      assert Slash(p) == |p| && p[..|p|] == p;
    } else {
      var n, e := Slash(p), FindLink(img, d, p).value;
      FindLinkIs(img, d, p);
      HeldInside(img, d, e);
      StemComponent(e.name, IsDir(img[e.fid]));
      GoesStem(e.name, IsDir(img[e.fid]), p);
      PlainTail(p, n + 1);
      WalkClean(img, e.fid, p[n + 1..]);
    }
  }

  lemma StepClean(a: Image, b: Image, s: Step, ss: seq<Sector>, time: nat)
    requires Inv(a) && Did(a, b, s, ss, time)
    ensures Clean(s.path)
  {
    hide Inv;
    hide Walk;
    hide Link;
    hide Makes;
    hide Clean;
    WalkClean(a, 1, s.path);
  }

  /** For the files of an image both readers translate alike. */
  lemma KernelReadsSame(img: Image, f: nat)
    requires Contents(img, f).Some? && |img| <= MOST_SECTORS
    ensures KernelContents(img, f) == Contents(img, f)
  {
    var node := img[f].node;
    if node.layout.SectorDir? {
      var sec := img[node.sec].list[0];
      if node.size > 0 {
        InSector(sec, node.size, 0);
        assert IsRaw(img, sec);
      } else {
        NoExtent(img, sec);
        NoExtent(img, sec % 0x1_0000_0000);
      }
    }
  }

  lemma NoExtent(img: Image, sec: nat)
    ensures Extent(img, sec, 0) == Some([])
  {
    assert RawRange(img, sec, 0);
    assert |Extent(img, sec, 0).value| == 0;
  }

  /** Every file that was added, in whatever layout, is read back from every later image, unless it was lost to begin with. */
  lemma FilesReadBack(imgs: seq<Image>, steps: seq<Step>, made: seq<seq<Sector>>, times: seq<nat>, i: nat, k: nat)
    requires Run(imgs, steps, made, times) && i < k < |imgs| && steps[i].MakeFile? && !Lost(steps[i].data)
    ensures Stored(imgs[k], steps[i].path, |imgs[i]|, steps[i].data)
  {
    hide Inv;
    hide Locate;
    hide Walk;
    hide Link;
    hide Makes;
    hide Contents;
    assert Did(imgs[i], imgs[i + 1], steps[i], made[i], times[i]);
    RunInv(imgs, steps, made, times, i);
    DidStores(imgs[i], imgs[i + 1], steps[i], made[i], times[i]);
    RunGrows(imgs, steps, made, times, i + 1, k);
    ContentsStay(imgs[i + 1], imgs[k], |imgs[i]|, steps[i].data);
    PathsFound(imgs, steps, made, times, i, k);
  }

  /** The links of inodes other than the new one stay the same. */
  ghost predicate LinksStay(a: Image, b: Image) {
    |a| <= |b| && forall i :: 0 <= i < |a| && a[i].INode? ==> b[i].INode? && b[i].node.numlinks == a[i].node.numlinks
  }

  lemma DidLinks(a: Image, b: Image, s: Step, ss: seq<Sector>, time: nat)
    requires Did(a, b, s, ss, time)
    ensures LinksStay(a, b) && |a| < |b| && b[|a|].INode? && b[|a|].node.numlinks == 1
  {
    hide Walk;
    hide Crc32c;
    hide HeaderBytes;
    hide FileSectors;
    MakesNew(a, s, ss);
    var (d, rest) := Walk(a, 1, s.path).value;
    var m := a + ss;
    assert m[|a|] == ss[0] && ss[0] in ss;
    forall i | 0 <= i < |a| && a[i].INode? ensures b[i].INode? && b[i].node.numlinks == a[i].node.numlinks {
      assert m[i] == a[i];
    }
  }

  lemma {:induction false} RunLinks(imgs: seq<Image>, steps: seq<Step>, made: seq<seq<Sector>>, times: seq<nat>, i: nat, k: nat)
    requires Run(imgs, steps, made, times) && i <= k < |imgs|
    ensures LinksStay(imgs[i], imgs[k])
    decreases k
  {
    hide Inv;
    hide Did;
    if i < k {
      RunLinks(imgs, steps, made, times, i, k - 1);
      assert Did(imgs[k - 1], imgs[k - 1 + 1], steps[k - 1], made[k - 1], times[k - 1]);
      DidLinks(imgs[k - 1], imgs[k], steps[k - 1], made[k - 1], times[k - 1]);
    }
  }

  /** A new entry leads further on than any other. */
  lemma DidDownward(a: Image, b: Image, s: Step, ss: seq<Sector>, time: nat)
    requires Inv(a) && Downward(a) && Did(a, b, s, ss, time)
    ensures Downward(b)
  {
    hide Walk;
    hide Makes;
    hide Inv;
    var (d, rest) := Walk(a, 1, s.path).value;
    var m, e := a + ss, DirEnt(|a|, NameFor(s, rest));
    MakesNew(a, s, ss);
    forall i: nat, x | Holds(b, i, x) ensures i < x.fid {
      LinkHolds(m, b, d, e, time, i, x);
      if !(i == d && x == e) {
        AppendHolds(a, ss, i, x);
      }
    }
  }

  lemma AppendHolds(a: Image, ss: seq<Sector>, i: nat, x: DirEnt)
    requires (forall y :: y in ss ==> New(y)) && Holds(a + ss, i, x)
    ensures Holds(a, i, x)
  {
    hide SumOk;
    hide Crc32c;
    var s := (a + ss)[i];
    assert s in ss || i < |a|;
  }

  lemma LinkHolds(a: Image, b: Image, d: nat, e: DirEnt, time: nat, i: nat, x: DirEnt)
    requires Link(a, b, d, e, time) && Holds(b, i, x)
    ensures Holds(a, i, x) || (i == d && x == e)
  {
    hide Crc32c;
    hide SumOk;
    hide HeaderBytes;
    if i == d {
      EnteredMembers(a[d].node, b[d].node, e, time, x);
    }
  }

  lemma {:induction false} RunDownward(imgs: seq<Image>, steps: seq<Step>, made: seq<seq<Sector>>, times: seq<nat>, k: nat)
    requires Run(imgs, steps, made, times) && Downward(imgs[0]) && k < |imgs|
    ensures Downward(imgs[k])
  {
    hide Inv;
    hide Did;
    hide Downward;
    if k > 0 {
      RunDownward(imgs, steps, made, times, k - 1);
      RunInv(imgs, steps, made, times, k - 1);
      assert Did(imgs[k - 1], imgs[k - 1 + 1], steps[k - 1], made[k - 1], times[k - 1]);
      DidDownward(imgs[k - 1], imgs[k], steps[k - 1], made[k - 1], times[k - 1]);
    }
  }

  /** What a step made has one link, in every later image. */
  lemma RunSingle(imgs: seq<Image>, steps: seq<Step>, made: seq<seq<Sector>>, times: seq<nat>, i: nat, k: nat)
    requires Run(imgs, steps, made, times) && i < k < |imgs|
    ensures Single(imgs[k], |imgs[i]|)
  {
    hide Inv;
    hide Did;
    assert Did(imgs[i], imgs[i + 1], steps[i], made[i], times[i]);
    DidLinks(imgs[i], imgs[i + 1], steps[i], made[i], times[i]);
    RunLinks(imgs, steps, made, times, i + 1, k);
  }

  /** When the kernel finds a path that the builder finds from the root. */
  ghost predicate Found(img: Image, p: string) {
    if NoLine(p) then !ShadowedPath(img, 1, p) else CutRight(img, 1, p)
  }

  lemma FoundIff(img: Image, p: string, g: nat)
    requires Inv(img) && Clean(p) && Locate(img, 0, p) == Some(g) && Single(img, g) && (NoLine(p) || Downward(img))
    ensures KernelLocate(img, 1, p) == Some(g) <==> Found(img, p)
  {
    CleanPlain(p);
    hide *;
    InvRoot(img);
    FromRoot(img, p);
    KernelAgreesIff(img, 1, p, g);
    SeenFound(img, p);
  }

  lemma SeenFound(img: Image, p: string)
    requires Clean(p)
    ensures Seen(img, 1, p) <==> Found(img, p)
  {
    hide Clean;
    hide ShadowedPath;
    hide CutRight;
  }

  /** For whatever was entered, file or directory: the kernel finds it exactly when its path is of one line and not
      shadowed, or the part before the line end leads to the same entry. */
  lemma KernelFindsIff(imgs: seq<Image>, steps: seq<Step>, made: seq<seq<Sector>>, times: seq<nat>, i: nat, k: nat)
    requires Run(imgs, steps, made, times) && i < k < |imgs|
    requires NoLine(steps[i].path) || Downward(imgs[0])
    ensures KernelLocate(imgs[k], 1, steps[i].path) == Some(|imgs[i]|) <==> Found(imgs[k], steps[i].path)
  {
    StepOf(imgs, steps, made, times, i);
    hide *;
    PathsFound(imgs, steps, made, times, i, k);
    RunInv(imgs, steps, made, times, k);
    RunSingle(imgs, steps, made, times, i, k);
    if !NoLine(steps[i].path) {
      RunDownward(imgs, steps, made, times, k);
    }
    FoundIff(imgs[k], steps[i].path, |imgs[i]|);
  }

  lemma StepOf(imgs: seq<Image>, steps: seq<Step>, made: seq<seq<Sector>>, times: seq<nat>, i: nat)
    requires Run(imgs, steps, made, times) && i + 1 < |imgs|
    ensures Clean(steps[i].path) && i < |steps| == |imgs| - 1
  {
    hide Inv;
    hide Did;
    hide Clean;
    RunInv(imgs, steps, made, times, i);
    assert Did(imgs[i], imgs[i + 1], steps[i], made[i], times[i]);
    StepClean(imgs[i], imgs[i + 1], steps[i], made[i], times[i]);
  }

  /** A file of one line is never mistaken. */
  lemma FileFound(img: Image, p: string, g: nat)
    requires Inv(img) && Clean(p) && Locate(img, 0, p) == Some(g) && g < |img| && !IsDir(img[g])
    ensures Found(img, p) <==> NoLine(p) || CutRight(img, 1, p)
  {
    CleanPlain(p);
    hide Inv;
    hide Clean;
    hide Locate;
    hide ShadowedPath;
    hide CutRight;
    hide IsDir;
    InvRoot(img);
    FromRoot(img, p);
    NotShadowed(img, 1, p, g);
  }

  /** And the kernel reads the same; it finds every path of one line, and of the others those whose part before
      the line end leads to the same entry. */
  lemma KernelReadsBack(imgs: seq<Image>, steps: seq<Step>, made: seq<seq<Sector>>, times: seq<nat>, i: nat, k: nat)
    requires Run(imgs, steps, made, times) && i < k < |imgs| && steps[i].MakeFile? && !Lost(steps[i].data)
    requires |imgs[k]| <= MOST_SECTORS && (NoLine(steps[i].path) || Downward(imgs[0]))
    ensures KernelLocate(imgs[k], 1, steps[i].path) == Some(|imgs[i]|) <==>
            NoLine(steps[i].path) || CutRight(imgs[k], 1, steps[i].path)
    ensures KernelContents(imgs[k], |imgs[i]|) == Some(steps[i].data)
  {
    StepOf(imgs, steps, made, times, i);
    FilesReadBack(imgs, steps, made, times, i, k);
    hide *;
    RunInv(imgs, steps, made, times, k);
    KernelFindsIff(imgs, steps, made, times, i, k);
    FileFound(imgs[k], steps[i].path, |imgs[i]|);
    KernelReadsSame(imgs[k], |imgs[i]|);
  }
}
