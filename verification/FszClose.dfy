/** The end of `createimage`: the superblock gets the number of sectors and its checksum, and everything
    that was added before is still found and read. */
module FszClose {
  import opened Options
  import opened FszNames
  import opened Crc
  import opened FszBytes
  import opened FszImage
  import opened FszSteps
  import opened FszLookup
  import opened FszFiles
  import opened FszKernel
  import opened FszLines
  import opened FszRun

  const COUNTED := 512
  const NUMSEC := 528
  const FREESEC := 544
  const SUM := 1020

  function SumBytes(raw: seq<Byte>): (s: seq<Byte>)
    requires |raw| == SECTOR
    ensures |s| == 4
  {
    Little(Crc32c(raw[COUNTED..SUM]) as nat, 4)
  }

  /** The superblock of an image of `n` sectors. */
  function Closed(raw: seq<Byte>, n: nat): (r: seq<Byte>)
    requires |raw| == SECTOR
    ensures |r| == SECTOR
  {
    var c := Put(Put(raw, NUMSEC, Little(n, 8)), FREESEC, Little(n, 8));
    Put(c, SUM, SumBytes(c))
  }

  /** The checksum in the superblock is the one of the bytes before it. */
  predicate SuperSumOk(raw: seq<Byte>)
    requires |raw| == SECTOR
  {
    raw[SUM..SUM + 4] == SumBytes(raw)
  }

  /** The closed superblock counts the sectors, its checksum is current, and all other bytes are as before. */
  lemma ClosedOk(raw: seq<Byte>, n: nat)
    requires |raw| == SECTOR && n < Power(8)
    ensures var r := Closed(raw, n);
            && Number(r[NUMSEC..NUMSEC + 8]) == n && Number(r[FREESEC..FREESEC + 8]) == n && SuperSumOk(r)
            && r[..NUMSEC] == raw[..NUMSEC] && r[NUMSEC + 8..FREESEC] == raw[NUMSEC + 8..FREESEC]
            && r[FREESEC + 8..SUM] == raw[FREESEC + 8..SUM] && r[SUM + 4..] == raw[SUM + 4..]
  {
    hide Little;
    hide Number;
    hide Crc32c;
    LittleNumber(n, 8);
    Modulus(n, Power(8), 0, n);
    hide Power;
    var b := Little(n, 8);
    var a := Put(raw, NUMSEC, b);
    var c := Put(a, FREESEC, b);
    var r := Put(c, SUM, SumBytes(c));
    hide SumBytes;
    hide Put;
    PutThere(raw, NUMSEC, b);
    PutThere(a, FREESEC, b);
    PutThere(c, SUM, SumBytes(c));
    PutApart(c, SUM, SumBytes(c), COUNTED, SUM);
    SameSum(r, c);
    PutApart(c, SUM, SumBytes(c), NUMSEC, NUMSEC + 8);
    PutApart(a, FREESEC, b, NUMSEC, NUMSEC + 8);
    PutApart(c, SUM, SumBytes(c), FREESEC, FREESEC + 8);
    Between(raw, b, NUMSEC + 8, FREESEC);
    Between(raw, b, FREESEC + 8, SUM);
    Between(raw, b, 0, NUMSEC);
  }

  lemma Between(raw: seq<Byte>, b: seq<Byte>, i: nat, j: nat)
    requires |raw| == SECTOR && |b| == 8 && i <= j <= SUM
    requires j <= NUMSEC || (NUMSEC + 8 <= i && (j <= FREESEC || FREESEC + 8 <= i))
    ensures var c := Put(Put(raw, NUMSEC, b), FREESEC, b); Put(c, SUM, SumBytes(c))[i..j] == raw[i..j]
  {
    hide SumBytes;
    var a := Put(raw, NUMSEC, b);
    var c := Put(a, FREESEC, b);
    PutApart(raw, NUMSEC, b, i, j);
    PutApart(a, FREESEC, b, i, j);
    PutApart(c, SUM, SumBytes(c), i, j);
  }

  lemma SameSum(a: seq<Byte>, b: seq<Byte>)
    requires |a| == |b| == SECTOR && a[COUNTED..SUM] == b[COUNTED..SUM]
    ensures SumBytes(a) == SumBytes(b)
  {
  }

  /** Another superblock for the image, with the same root. */
  ghost predicate NewSuper(img: Image, t: Sector) {
    img != [] && img[0].Super? && t.Super? && t.root == img[0].root && SectorOk(img, t)
  }

  lemma ClosedSuper(img: Image)
    requires Inv(img)
    ensures img[0].Super? && |img[0].raw| == SECTOR
    ensures NewSuper(img, Super(img[0].root, Closed(img[0].raw, |img|)))
  {
    hide LinksOk;
    hide Little;
    hide Crc32c;
    assert SectorOk(img, img[0]);
    var raw := img[0].raw;
    var b := Little(|img|, 8);
    var a := Put(raw, NUMSEC, b);
    var c := Put(a, FREESEC, b);
    PutApart(raw, NUMSEC, b, COUNTED, COUNTED + 4);
    PutApart(a, FREESEC, b, COUNTED, COUNTED + 4);
    PutApart(c, SUM, SumBytes(c), COUNTED, COUNTED + 4);
  }

  lemma {:induction false} SuperRefs(img: Image, t: Sector, f: nat, n: nat)
    requires NewSuper(img, t) && n <= |img|
    ensures Refs(img[0 := t], f, n) == Refs(img, f, n)
  {
    if n > 0 {
      SuperRefs(img, t, f, n - 1);
    }
  }

  lemma SuperDirOk(img: Image, t: Sector, node: Inode)
    requires NewSuper(img, t) && node.body.Entries? && DirOk(img, node)
    ensures DirOk(img[0 := t], node)
  {
    hide Crc32c;
    hide EntriesBytes;
  }

  /** A new superblock keeps the image well formed. */
  lemma SuperInv(img: Image, t: Sector)
    requires Inv(img) && NewSuper(img, t)
    ensures Inv(img[0 := t])
  {
    hide DirOk;
    hide SumOk;
    hide Refs;
    var b := img[0 := t];
    forall i | 0 <= i < |b| ensures SectorOk(b, b[i]) {
      assert SectorOk(img, img[i]);
      if i > 0 && IsDir(img[i]) {
        SuperDirOk(img, t, img[i].node);
      }
    }
    forall f | 0 <= f < |b| ensures LinksOk(b, f) {
      assert LinksOk(img, f);
      SuperRefs(img, t, f, |img|);
    }
  }

  lemma SuperGrown(img: Image, t: Sector)
    requires NewSuper(img, t)
    ensures Grown(img, img[0 := t]) && Grown(img[0 := t], img)
  {
    hide Dense;
    hide SectorOk;
  }

  lemma SuperStay(a: Image, b: Image, t: Sector)
    requires FilesStay(a, b) && a != [] && b != []
    ensures FilesStay(a[0 := t], b[0 := t])
  {
  }

  lemma DidFile(a: Image, b: Image, s: Step, ss: seq<Sector>, time: nat)
    requires Did(a, b, s, ss, time) && s.MakeFile?
    ensures FilesStay(a + ss, b) && !TooBig(s.data)
    ensures ss != [] && ss[0].INode? && !IsDir(ss[0]) && ss == FileSectors(|a|, s.data, ss[0].node)
  {
    hide Walk;
    hide Link;
    hide New;
    hide FileSectors;
    hide FilesStay;
    hide IsDir;
    hide TooBig;
    MakesNew(a, s, ss);
    var (d, rest) := Walk(a, 1, s.path).value;
    LinkStay(a + ss, b, d, DirEnt(|a|, NameFor(s, rest)), time);
  }

  /** A file that is added does not lie in the superblock. */
  lemma DidBehind(a: Image, b: Image, s: Step, ss: seq<Sector>, time: nat, t: Sector)
    requires a != [] && Did(a, b, s, ss, time) && s.MakeFile? && !Lost(s.data)
    ensures |a| < |b| && Contents(b[0 := t], |a|) == Some(s.data) && !IsDir(b[0 := t][|a|])
  {
    hide *;
    DidFile(a, b, s, ss, time);
    StayLonger(a + ss, b);
    var a' := a[0 := t];
    assert (a + ss)[0 := t] == a' + ss && ss[0] == (a' + ss)[|a'|];
    FileReadsBack(a', s.data, ss[0].node);
    SuperStay(a + ss, b, t);
    ContentsStay(a' + ss, b[0 := t], |a|, s.data);
  }

  lemma StayLonger(a: Image, b: Image)
    requires FilesStay(a, b)
    ensures |a| <= |b|
  {
  }

  predicate Closable(img: Image) {
    img != [] && img[0].Super? && |img[0].raw| == SECTOR
  }

  /** An image whose superblock has been closed. */
  function Finished(img: Image): Image
    requires Closable(img)
  {
    img[0 := Super(img[0].root, Closed(img[0].raw, |img|))]
  }

  /** Closing the superblock keeps the image well formed, with the same directories. */
  lemma FinishedSame(img: Image)
    requires Inv(img)
    ensures Closable(img) && Inv(Finished(img)) && Grown(img, Finished(img)) && Grown(Finished(img), img)
  {
    hide Inv;
    hide Grown;
    hide Closed;
    hide NewSuper;
    InvRoot(img);
    ClosedSuper(img);
    var t := Super(img[0].root, Closed(img[0].raw, |img|));
    SuperInv(img, t);
    SuperGrown(img, t);
  }

  /** Whatever was entered is still found; by the kernel under the same condition as before. */
  lemma ClosedFindsIff(imgs: seq<Image>, steps: seq<Step>, made: seq<seq<Sector>>, times: seq<nat>, i: nat, k: nat)
    requires Run(imgs, steps, made, times) && i < k < |imgs|
    ensures var img, p, f := imgs[k], steps[i].path, |imgs[i]|;
            && Closable(img) && Inv(Finished(img)) && Locate(Finished(img), 0, p) == Some(f)
            && (NoLine(p) || Downward(imgs[0]) ==> (KernelLocate(Finished(img), 1, p) == Some(f) <==> Found(Finished(img), p)))
  {
    StepOf(imgs, steps, made, times, i);
    hide *;
    var img, p, f := imgs[k], steps[i].path, |imgs[i]|;
    RunInv(imgs, steps, made, times, k);
    FinishedSame(img);
    PathsFound(imgs, steps, made, times, i, k);
    CleanPlain(p);
    LocateKept(img, Finished(img), 0, p, f);
    RunSingle(imgs, steps, made, times, i, k);
    FinishedSingle(img, f);
    if NoLine(p) {
      FoundIff(Finished(img), p, f);
    } else if Downward(imgs[0]) {
      RunDownward(imgs, steps, made, times, k);
      FinishedDownward(img);
      FoundIff(Finished(img), p, f);
    }
  }

  lemma FinishedSingle(img: Image, f: nat)
    requires Closable(img) && Single(img, f)
    ensures Single(Finished(img), f)
  {
    hide Closed;
  }

  lemma FinishedDownward(img: Image)
    requires Closable(img) && Grown(Finished(img), img) && Downward(img)
    ensures Downward(Finished(img))
  {
    hide Holds;
    hide Finished;
  }

  /** Every file that was added is still found and read, by both readers, when the superblock has been closed. */
  lemma ClosedReadsBack(imgs: seq<Image>, steps: seq<Step>, made: seq<seq<Sector>>, times: seq<nat>, i: nat, k: nat)
    requires Run(imgs, steps, made, times) && i < k < |imgs| && steps[i].MakeFile? && !Lost(steps[i].data)
    ensures var img, p, f := imgs[k], steps[i].path, |imgs[i]|;
            && Closable(img) && Stored(Finished(img), p, f, steps[i].data)
            && (NoLine(p) ==> KernelLocate(Finished(img), 1, p) == Some(f))
            && (Downward(imgs[0]) ==>
                 (KernelLocate(Finished(img), 1, p) == Some(f) <==> NoLine(p) || CutRight(Finished(img), 1, p)))
            && (|img| <= MOST_SECTORS ==> KernelContents(Finished(img), f) == Some(steps[i].data))
  {
    StepOf(imgs, steps, made, times, i);
    hide *;
    var img, p, f := imgs[k], steps[i].path, |imgs[i]|;
    ClosedFindsIff(imgs, steps, made, times, i, k);
    ClosedStores(imgs, steps, made, times, i, k);
    StoredFile(Finished(img), p, f, steps[i].data);
    FileFound(Finished(img), p, f);
    if |img| <= MOST_SECTORS {
      KernelReadsSame(Finished(img), f);
    }
  }

  lemma StoredFile(img: Image, p: string, f: nat, data: seq<Byte>)
    requires Stored(img, p, f, data)
    ensures f < |img| && !IsDir(img[f]) && Locate(img, 0, p) == Some(f) && Contents(img, f) == Some(data)
  {
  }

  lemma ClosedStores(imgs: seq<Image>, steps: seq<Step>, made: seq<seq<Sector>>, times: seq<nat>, i: nat, k: nat)
    requires Run(imgs, steps, made, times) && i < k < |imgs| && steps[i].MakeFile? && !Lost(steps[i].data)
    ensures Closable(imgs[k]) && |Finished(imgs[k])| == |imgs[k]|
    ensures Stored(Finished(imgs[k]), steps[i].path, |imgs[i]|, steps[i].data)
  {
    hide Inv;
    hide Locate;
    hide Walk;
    hide Link;
    hide Makes;
    hide Contents;
    hide Closed;
    hide Grown;
    hide FilesStay;
    hide SameFile;
    hide IsDir;
    hide Possible;
    RunInv(imgs, steps, made, times, k);
    FinishedSame(imgs[k]);
    var img, f, data := imgs[k], |imgs[i]|, steps[i].data;
    var t := Super(img[0].root, Closed(img[0].raw, |img|));
    FilesReadBack(imgs, steps, made, times, i, k);
    assert Did(imgs[i], imgs[i + 1], steps[i], made[i], times[i]);
    StepPlain(imgs[i], imgs[i + 1], steps[i], made[i], times[i]);
    LocateKept(img, img[0 := t], 0, steps[i].path, f);
    RunInv(imgs, steps, made, times, i);
    InvRoot(imgs[i]);
    DidBehind(imgs[i], imgs[i + 1], steps[i], made[i], times[i], t);
    RunGrows(imgs, steps, made, times, i + 1, k);
    SuperStay(imgs[i + 1], img, t);
    ContentsStay(imgs[i + 1][0 := t], img[0 := t], f, data);
  }

  lemma StepPlain(a: Image, b: Image, s: Step, ss: seq<Sector>, time: nat)
    requires Did(a, b, s, ss, time)
    ensures FszNames.Plain(s.path)
  {
    hide Link;
    hide Makes;
  }
}
