/** The four layouts of file data, and reading them back. */
module FszFiles {
  import opened Options
  import opened Crc
  import opened FszBytes
  import opened FszImage
  import opened FszSteps
  import opened FszLookup

  // ---------- reading ----------

  predicate IsRaw(img: Image, i: nat) {
    i < |img| && (img[i].Data? || img[i].Super?) && |img[i].raw| == SECTOR
  }

  /** The bytes of `n` bytes' worth of consecutive sectors can be read as they are. */
  predicate RawRange(img: Image, sec: nat, n: nat) {
    forall i :: sec <= i < sec + (n + SECTOR - 1) / SECTOR ==> IsRaw(img, i)
  }

  lemma InSector(sec: nat, n: nat, b: nat)
    requires b < n
    ensures sec <= sec + b / SECTOR < sec + (n + SECTOR - 1) / SECTOR
  {
  }

  function Extent(img: Image, sec: nat, n: nat): Option<seq<Byte>> {
    if !RawRange(img, sec, n) then None
    else Some(seq(n, b requires 0 <= b < n => InSector(sec, n, b); assert IsRaw(img, sec + b / SECTOR); img[sec + b / SECTOR].raw[b % SECTOR]))
  }

  /** `cat`: the data of an inode. */
  function Contents(img: Image, f: nat): Option<seq<Byte>> {
    if f >= |img| || !img[f].INode? then None
    else
      var node := img[f].node;
      match node.layout
      case Inline => if node.body.Bytes? && node.size <= |node.body.data| then Some(node.body.data[..node.size]) else None
      case SectorDirInline => if node.body.Sectors? && node.body.list != [] then Extent(img, node.body.list[0], node.size) else None
      case Direct => Extent(img, node.sec, node.size)
      case SectorDir =>
        if node.sec < |img| && img[node.sec].SecDir? && img[node.sec].list != []
        then Extent(img, img[node.sec].list[0], node.size) else None
  }

  /** `fs_locate` takes only 32 bits of an address in a sector directory. */
  function KernelContents(img: Image, f: nat): Option<seq<Byte>> {
    if f < |img| && img[f].INode? && img[f].node.layout.SectorDir? then
      var node := img[f].node;
      if node.sec < |img| && img[node.sec].SecDir? && img[node.sec].list != []
      then Extent(img, img[node.sec].list[0] % 0x1_0000_0000, node.size) else None
    else Contents(img, f)
  }

  // ---------- writing ----------

  /** A file's byte, or a zero after its end. */
  function ByteOr0(data: seq<Byte>, x: nat): Byte {
    if x < |data| then data[x] else 0
  }

  function Chunk(data: seq<Byte>, i: nat): (s: seq<Byte>)
    ensures |s| == SECTOR
  {
    seq(SECTOR, m requires 0 <= m < SECTOR => ByteOr0(data, i * SECTOR + m))
  }

  function Chunks(data: seq<Byte>, j: nat): (ss: seq<Sector>)
    ensures |ss| == j
  {
    seq(j, i requires 0 <= i < j => Data(Chunk(data, i)))
  }

  function SectorsFor(n: nat): nat {
    (n + SECTOR - 1) / SECTOR
  }

  function Numbered(from: nat, j: nat): (s: seq<nat>)
    ensures |s| == j
  {
    seq(j, i requires 0 <= i < j => from + i)
  }

  predicate AllZero(data: seq<Byte>) {
    forall i :: 0 <= i < |data| ==> data[i] == 0
  }

  predicate TooBig(data: seq<Byte>) {
    |data| > SECTOR && SectorsFor(|data|) * 16 > SECTOR
  }

  function Blank(): Body {
    Bytes(Zeroed(INLINE))
  }

  /** The inode of a file, at `base`, before its checksum is computed. */
  function FileNode(base: nat, data: seq<Byte>, proto: Inode): Inode {
    var n, j := |data|, SectorsFor(|data|);
    if n <= INLINE then
      proto.(size := n, sec := base, layout := Inline, numblocks := 0, body := Bytes(data + Zeroed(INLINE - n)))
    else if n <= SECTOR then
      var z := AllZero(data);
      proto.(size := n, sec := if z then 0 else base + 1, layout := Direct, numblocks := if z then 0 else 1, body := Blank())
    else if j * 16 <= INLINE then
      proto.(size := n, sec := base + 1, layout := SectorDirInline, numblocks := j, body := Sectors(Numbered(base + 1, j)))
    else
      proto.(size := n, sec := base + 1, layout := SectorDir, numblocks := j + 1, body := Blank())
  }

  /** The sectors after it: a sector directory, if it did not fit in the inode's own sector, and the data. */
  function FileTail(base: nat, data: seq<Byte>): seq<Sector> {
    var n, j := |data|, SectorsFor(|data|);
    if n <= INLINE then []
    else if n <= SECTOR || j * 16 <= INLINE then Chunks(data, j)
    else [SecDir(Numbered(base + 2, j))] + Chunks(data, j)
  }

  /** All sectors of a file whose inode is at `base`. */
  function FileSectors(base: nat, data: seq<Byte>, proto: Inode): seq<Sector>
    requires !TooBig(data)
  {
    [INode(Summed(FileNode(base, data, proto)))] + FileTail(base, data)
  }

  /** A new inode that is not a directory. */
  predicate FileProto(proto: Inode) {
    proto.filetype != DIR_TYPE && proto.numlinks == 0
  }

  lemma FileSectorsNew(base: nat, data: seq<Byte>, proto: Inode)
    requires !TooBig(data) && FileProto(proto)
    ensures forall s :: s in FileSectors(base, data, proto) ==> New(s)
    ensures FileSectors(base, data, proto)[0].node.filetype == proto.filetype
  {
    hide SumOk;
    hide HeaderBytes;
    SummedOk(FileNode(base, data, proto));
    forall s | s in FileTail(base, data) ensures New(s) {
    }
  }

  /** The inode counts the sectors behind it, sector directory included; a file of zeros in the direct layout has none. */
  lemma BlocksCounted(base: nat, data: seq<Byte>, proto: Inode)
    requires !TooBig(data)
    ensures var ss := FileSectors(base, data, proto);
            ss[0].node.numblocks == (if Lost(data) then 0 else |ss| - 1) && ss[0].node.size == |data|
  {
    hide Summed;
    hide Chunks;
    if SECTOR >= |data| > INLINE {
      assert SectorsFor(|data|) == 1;
    }
  }

  /** Consecutive chunks read back as the file. */
  lemma ExtentChunks(img: Image, sec: nat, data: seq<Byte>)
    requires sec + SectorsFor(|data|) <= |img| && img[sec..sec + SectorsFor(|data|)] == Chunks(data, SectorsFor(|data|))
    ensures Extent(img, sec, |data|) == Some(data)
  {
    var n, j := |data|, SectorsFor(|data|);
    forall i | sec <= i < sec + j ensures img[i] == Data(Chunk(data, i - sec)) {
      assert img[i] == img[sec..sec + j][i - sec];
    }
    assert RawRange(img, sec, n);
    var r := Extent(img, sec, n).value;
    forall b | 0 <= b < n ensures r[b] == data[b] {
      InSector(sec, n, b);
      var i := b / SECTOR;
      assert i * SECTOR + b % SECTOR == b;
      assert img[sec + i].raw[b % SECTOR] == Chunk(data, i)[b % SECTOR] == ByteOr0(data, b);
    }
    assert r == data;
  }

  /** A file in the direct layout that is all zeros is not stored at all. */
  predicate Lost(data: seq<Byte>) {
    INLINE < |data| <= SECTOR && AllZero(data)
  }

  lemma ChunksAt(a: Image, h: seq<Sector>, data: seq<Byte>, j: nat)
    requires j == SectorsFor(|data|)
    ensures Extent(a + (h + Chunks(data, j)), |a| + |h|, |data|) == Some(data)
  {
    var img := a + (h + Chunks(data, j));
    assert img[|a| + |h|..|a| + |h| + j] == Chunks(data, j);
    ExtentChunks(img, |a| + |h|, data);
  }

  /** Both readers give back every file that was added, in each of the four layouts, unless it is lost. */
  lemma FileReadsBack(img: Image, data: seq<Byte>, proto: Inode)
    requires !TooBig(data) && !Lost(data)
    ensures Contents(img + FileSectors(|img|, data, proto), |img|) == Some(data)
    ensures |img| + 2 < 0x1_0000_0000 ==> KernelContents(img + FileSectors(|img|, data, proto), |img|) == Some(data)
  {
    hide Summed;
    hide Chunks;
    hide Extent;
    var ss, tail := FileSectors(|img|, data, proto), FileTail(|img|, data);
    var b := img + ss;
    assert b[|img|] == ss[0];
    var n, j := |data|, SectorsFor(|data|);
    if n <= INLINE {
      assert (data + Zeroed(INLINE - n))[..n] == data;
    } else if n <= SECTOR || j * 16 <= INLINE {
      ChunksAt(img, ss[..1], data, j);
      assert ss[..1] + Chunks(data, j) == ss;
    } else {
      ChunksAt(img, ss[..2], data, j);
      assert ss[..2] + Chunks(data, j) == ss;
      assert b[|img| + 1] == ss[1] == tail[0];
    }
  }

  /** The sector directory of an inode, in its own sector or in another one. */
  function Directory(img: Image, f: nat): seq<nat> {
    if f >= |img| || !img[f].INode? then []
    else if img[f].node.layout.SectorDirInline? && img[f].node.body.Sectors? then img[f].node.body.list
    else if img[f].node.layout.SectorDir? && img[f].node.sec < |img| && img[img[f].node.sec].SecDir? then img[img[f].node.sec].list
    else []
  }

  /** Every byte of a file is also found through the address of its own sector, not only behind the first one. */
  lemma DirectoryReads(img: Image, data: seq<Byte>, proto: Inode, x: nat)
    requires !TooBig(data) && |data| > SECTOR && x < |data|
    ensures var b := img + FileSectors(|img|, data, proto);
            var list := Directory(b, |img|);
            && |list| == SectorsFor(|data|) && x / SECTOR < |list| && list[x / SECTOR] < |b| && b[list[x / SECTOR]].Data?
            && |b[list[x / SECTOR]].raw| == SECTOR && b[list[x / SECTOR]].raw[x % SECTOR] == data[x]
  {
    hide Chunk;
    hide Chunks;
    hide Numbered;
    hide TooBig;
    hide FileSectors;
    hide Directory;
    DirectoryIs(img, data, proto);
    SectorAt(data, x);
    hide SectorsFor;
    var b, j, i := img + FileSectors(|img|, data, proto), SectorsFor(|data|), x / SECTOR;
    NumberedAt(data, |b| - j, j, i);
    assert b[|b| - j + i] == b[|b| - j..][i];
    ChunkAt(data, x);
  }

  lemma NumberedAt(data: seq<Byte>, from: nat, j: nat, i: nat)
    requires i < j
    ensures Numbered(from, j)[i] == from + i && Chunks(data, j)[i] == Data(Chunk(data, i))
  {
    hide Chunk;
  }

  lemma SectorAt(data: seq<Byte>, x: nat)
    requires x < |data|
    ensures x / SECTOR < SectorsFor(|data|)
  {
  }

  /** The directory of a large file has the addresses of its sectors, which are the last ones of the image. */
  lemma DirectoryIs(img: Image, data: seq<Byte>, proto: Inode)
    requires !TooBig(data) && |data| > SECTOR
    ensures var b, j := img + FileSectors(|img|, data, proto), SectorsFor(|data|);
            && |b| >= j && Directory(b, |img|) == Numbered(|b| - j, j) && b[|b| - j..] == Chunks(data, j)
  {
    hide Summed;
    hide Chunks;
    hide Numbered;
    hide TooBig;
    var ss, tail := FileSectors(|img|, data, proto), FileTail(|img|, data);
    var b, j := img + ss, SectorsFor(|data|);
    assert b[|img|] == ss[0];
    if j * 16 > INLINE {
      assert b[|img| + 1] == ss[1] == tail[0];
    }
  }

  lemma ChunkAt(data: seq<Byte>, x: nat)
    requires x < |data|
    ensures Chunk(data, x / SECTOR)[x % SECTOR] == data[x]
  {
    var i, m := x / SECTOR, x % SECTOR;
    assert i * SECTOR + m == x;
    assert Chunk(data, i)[m] == ByteOr0(data, i * SECTOR + m);
  }

  lemma SuperMagic(img: Image)
    requires Inv(img)
    ensures img != [] && img[0].Super? && |img[0].raw| == SECTOR && img[0].raw[512] == 0x46
  {
    hide LinksOk;
    assert SectorOk(img, img[0]);
    assert img[0].raw[512..516][0] == img[0].raw[512];
  }

  /** What is read of a lost file is the beginning of the superblock. */
  lemma LostReads(img: Image, data: seq<Byte>, proto: Inode)
    requires img != [] && img[0].Super? && |img[0].raw| == SECTOR && img[0].raw[512] == 0x46 && Lost(data)
    ensures !TooBig(data) && Contents(img + FileSectors(|img|, data, proto), |img|) != Some(data)
  {
    hide Summed;
    hide Chunks;
    var ss := FileSectors(|img|, data, proto);
    var b := img + ss;
    assert b[|img|] == ss[0] && b[0] == img[0];
    var r := Contents(b, |img|);
    if r.Some? {
      assert r.value[512] == img[0].raw[512];
    }
  }

  /** Exactly the lost files cannot be read back. */
  lemma FileReadsBackIff(img: Image, data: seq<Byte>, proto: Inode)
    requires Inv(img) && !TooBig(data)
    ensures Contents(img + FileSectors(|img|, data, proto), |img|) == Some(data) <==> !Lost(data)
  {
    hide *;
    if Lost(data) {
      SuperMagic(img);
      LostReads(img, data, proto);
    } else {
      FileReadsBack(img, data, proto);
    }
  }

  // ---------- later changes ----------

  /** The same file, but for its links and its checksum. */
  predicate SameFile(s: Sector, t: Sector) {
    && s.INode? && t.INode? && s.node.filetype == t.node.filetype && s.node.layout == t.node.layout && s.node.sec == t.node.sec
    && s.node.size == t.node.size && s.node.body == t.node.body
  }

  /** Everything but directories stays as it was. */
  ghost predicate FilesStay(a: Image, b: Image) {
    |a| <= |b| && forall i :: 0 <= i < |a| && !IsDir(a[i]) ==> b[i] == a[i] || SameFile(a[i], b[i])
  }

  lemma AppendStay(a: Image, ss: seq<Sector>)
    ensures FilesStay(a, a + ss)
  {
  }

  lemma LinkStay(a: Image, b: Image, d: nat, e: DirEnt, time: nat)
    requires Link(a, b, d, e, time)
    ensures FilesStay(a, b)
  {
    hide Crc32c;
    hide Entered;
  }

  lemma ExtentStays(a: Image, b: Image, sec: nat, n: nat)
    requires FilesStay(a, b) && Extent(a, sec, n).Some?
    ensures Extent(b, sec, n) == Extent(a, sec, n)
  {
    forall i | sec <= i < sec + (n + SECTOR - 1) / SECTOR ensures i < |a| && b[i] == a[i] && IsRaw(b, i) {
      assert IsRaw(a, i);
    }
    assert RawRange(b, sec, n);
    var x, y := Extent(a, sec, n).value, Extent(b, sec, n).value;
    forall k | 0 <= k < n ensures x[k] == y[k] {
      InSector(sec, n, k);
    }
    assert x == y;
  }

  /** A file's contents stay the same through all later changes. */
  lemma ContentsStay(a: Image, b: Image, f: nat, data: seq<Byte>)
    requires FilesStay(a, b) && f < |a| && !IsDir(a[f]) && Contents(a, f) == Some(data)
    ensures Contents(b, f) == Some(data) && !IsDir(b[f])
  {
    hide Extent;
    var node := a[f].node;
    match node.layout {
      case Inline =>
      case SectorDirInline => ExtentStays(a, b, node.body.list[0], node.size);
      case Direct => ExtentStays(a, b, node.sec, node.size);
      case SectorDir => ExtentStays(a, b, a[node.sec].list[0], node.size);
    }
  }
}
