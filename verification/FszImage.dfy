/** An FS/Z image as a sequence of sectors, the checksums that it carries, and what has to hold of its
    directories and inodes. */
module FszImage {
  import opened Qsort
  import opened FszNames
  import opened Crc
  import opened FszBytes

  const SECTOR := 4096
  const INLINE := 3072
  const ENTRY := 128
  const SLOTS := 23
  const HEADER := 1016

  /** An entry of a directory; a free slot has no file. */
  datatype DirEnt = DirEnt(fid: nat, name: string)

  const FREE := DirEnt(0, "")

  /** How the data of an inode is found. */
  datatype Layout = Inline | Direct | SectorDirInline | SectorDir

  /** What is kept behind the inode in its own sector. */
  datatype Body =
    | Bytes(data: seq<Byte>)
    | Entries(numentries: nat, sum: bv32, slots: seq<DirEnt>)
    | Sectors(list: seq<nat>)

  type FileType = s: seq<Byte> | |s| == 4 witness Zeroed(4)
  type MimeType = s: seq<Byte> | |s| == 44 witness Zeroed(44)
  type Owner = s: seq<Byte> | |s| == 16 witness Zeroed(16)

  datatype Inode = Inode(checksum: bv32, filetype: FileType, mimetype: MimeType, changed: nat, numblocks: nat, numlinks: nat,
                         sec: nat, size: nat, modified: nat, layout: Layout, owner: Owner, body: Body)

  datatype Sector = Super(root: nat, raw: seq<Byte>) | INode(node: Inode) | Data(raw: seq<Byte>) | SecDir(list: seq<nat>)

  type Image = seq<Sector>

  // "FS/Z"
  const MAGIC: seq<Byte> := [0x46, 0x53, 0x2F, 0x5A]

  // "dir:"
  const DIR_TYPE: FileType := [0x64, 0x69, 0x72, 0x3A]

  // ---------- checksums ----------

  function LayoutFlags(l: Layout): nat {
    match l case Inline => 0xFF case Direct => 0 case SectorDirInline => 0x7F case SectorDir => 1
  }

  /** The fields of an inode behind its magic and its checksum, each at its place. */
  function HeaderFields(node: Inode): seq<Field> {
    [Field(0, node.filetype), Field(4, node.mimetype), Field(72, Little(node.changed, 8)), Field(88, Little(node.numblocks, 8)),
     Field(96, Little(node.numlinks, 8)), Field(440, Little(node.sec, 8)), Field(456, Little(node.size, 8)),
     Field(472, Little(node.modified, 8)), Field(484, Little(LayoutFlags(node.layout), 4)), Field(488, node.owner)]
  }

  lemma HeaderFit(node: Inode)
    ensures Fields(HeaderFields(node), HEADER)
  {
    hide Little;
  }

  /** The part of an inode from the file type up to the inlined data. */
  function HeaderBytes(node: Inode): (h: seq<Byte>)
    ensures |h| == HEADER
  {
    HeaderFit(node);
    PutAll(Zeroed(HEADER), HeaderFields(node))
  }

  function NameBytes(name: string, n: nat): (s: seq<Byte>)
    ensures |s| == n
  {
    seq(n, i requires 0 <= i < n => if i < |name| then ByteOf(name[i] as nat) else 0)
  }

  function EntryBytes(e: DirEnt): (s: seq<Byte>)
    ensures |s| == ENTRY
  {
    Little(e.fid, 16) + [ByteOf(|e.name|)] + NameBytes(e.name, 111)
  }

  function EntriesBytes(es: seq<DirEnt>): seq<Byte> {
    if es == [] then [] else EntriesBytes(es[..|es| - 1]) + EntryBytes(es[|es| - 1])
  }

  /** The Castagnoli checksum, as `crc32_calc` computes it. */
  function Crc32c(bytes: seq<Byte>): bv32 {
    Feed(0, MessageBits(bytes), 0x82F63B78)
  }

  function Summed(node: Inode): (r: Inode)
    ensures r == node.(checksum := r.checksum)
  {
    node.(checksum := Crc32c(HeaderBytes(node)))
  }

  predicate SumOk(node: Inode) {
    node.checksum == Crc32c(HeaderBytes(node))
  }

  /** The checksum does not cover itself. */
  lemma SummedOk(node: Inode)
    ensures SumOk(Summed(node))
  {
    hide Crc32c;
  }

  // ---------- directories ----------

  function EntCmp(a: DirEnt, b: DirEnt): int {
    CaseCmp(a.name, b.name)
  }

  predicate IsDir(s: Sector) {
    s.INode? && s.node.filetype == DIR_TYPE && s.node.body.Entries?
  }

  function Used(node: Inode): seq<DirEnt>
    requires node.body.Entries? && node.body.numentries <= |node.body.slots|
  {
    node.body.slots[..node.body.numentries]
  }

  /** Dense: exactly the first slots are used. */
  predicate Dense(b: Body)
    requires b.Entries?
  {
    b.numentries <= |b.slots| == SLOTS && forall i :: 0 <= i < SLOTS ==> (b.slots[i].fid != 0 <==> i < b.numentries)
  }

  predicate InOrder(es: seq<DirEnt>) {
    forall i, j :: 0 <= i < j < |es| ==> EntCmp(es[i], es[j]) <= 0
  }

  /** No two entries have the same name, not even as file and directory. */
  predicate Unique(es: seq<DirEnt>) {
    forall i, j :: 0 <= i < j < |es| ==> Stem(es[i].name) != Stem(es[j].name)
  }

  /** An entry names an inode, and has a slash at the end exactly if that is a directory. */
  predicate EntryOk(img: Image, e: DirEnt) {
    0 < e.fid < |img| && img[e.fid].INode? && EntryName(e.name, IsDir(img[e.fid]))
  }

  predicate DirOk(img: Image, node: Inode)
    requires node.body.Entries?
  {
    && Dense(node.body)
    && InOrder(Used(node)) && Unique(Used(node))
    && (forall e :: e in Used(node) ==> EntryOk(img, e))
    && node.size == ENTRY * (node.body.numentries + 1)
    && node.body.sum == Crc32c(EntriesBytes(Used(node)))
  }

  predicate SectorOk(img: Image, s: Sector) {
    match s
    case Super(root, raw) => |raw| == SECTOR && raw[512..516] == MAGIC
    case Data(raw) => |raw| == SECTOR
    case SecDir(list) => true
    case INode(node) => SumOk(node) && (IsDir(s) <==> node.filetype == DIR_TYPE) && (IsDir(s) ==> DirOk(img, node))
  }

  // ---------- links ----------

  /** What entries can have in common: the inode they name, or their name apart from the slash. */
  datatype Key = Fid(fid: nat) | Called(stem: string)

  predicate Has(e: DirEnt, k: Key) {
    if k.Fid? then e.fid == k.fid else Stem(e.name) == k.stem
  }

  function Count(es: seq<DirEnt>, k: Key): nat {
    if es == [] then 0 else Count(es[..|es| - 1], k) + if Has(es[|es| - 1], k) then 1 else 0
  }

  /** How often a sector, as a directory, names inode `f`. */
  function RefsIn(s: Sector, f: nat): nat {
    if IsDir(s) && s.node.body.numentries <= |s.node.body.slots| then Count(Used(s.node), Fid(f)) else 0
  }

  /** How often the first `n` sectors do. */
  function Refs(img: Image, f: nat, n: nat): nat
    requires n <= |img|
  {
    if n == 0 then 0 else Refs(img, f, n - 1) + RefsIn(img[n - 1], f)
  }

  predicate LinksOk(img: Image, f: nat)
    requires f < |img|
  {
    img[f].INode? ==> img[f].node.numlinks == Refs(img, f, |img|) + if f == 1 then 1 else 0
  }

  /** A well-formed image: the superblock, then the root directory, and every sector as it should be. */
  ghost predicate Inv(img: Image) {
    && |img| >= 2 && img[0].Super? && img[0].root == 1 && IsDir(img[1])
    && (forall i :: 0 <= i < |img| ==> SectorOk(img, img[i]))
    && (forall f :: 0 <= f < |img| ==> LinksOk(img, f))
    && forall i :: 1 <= i < |img| ==> !img[i].Super?
  }

  lemma {:induction false} CountConcat(a: seq<DirEnt>, b: seq<DirEnt>, k: Key)
    ensures Count(a + b, k) == Count(a, k) + Count(b, k)
    decreases |b|
  {
    if b == [] {
      assert a + b == a;
    } else {
      assert (a + b)[..|a + b| - 1] == a + b[..|b| - 1];
      CountConcat(a, b[..|b| - 1], k);
    }
  }

  lemma WithoutOne(b: seq<DirEnt>, m: nat)
    requires m < |b|
    ensures multiset(b) == multiset(b[..m] + b[m + 1..]) + multiset{b[m]}
  {
    assert b == b[..m] + [b[m]] + b[m + 1..];
  }

  lemma SameWithout(a: multiset<DirEnt>, b: multiset<DirEnt>, x: DirEnt)
    requires a + multiset{x} == b + multiset{x}
    ensures a == b
  {
    forall y: DirEnt ensures a[y] == b[y] {
      assert (a + multiset{x})[y] == (b + multiset{x})[y];
    }
  }

  lemma {:induction false} CountPerm(a: seq<DirEnt>, b: seq<DirEnt>, k: Key)
    requires multiset(a) == multiset(b)
    ensures Count(a, k) == Count(b, k)
    decreases |a|
  {
    if a == [] {
      assert |multiset(b)| == 0;
    } else {
      var x, r := a[|a| - 1], a[..|a| - 1];
      assert x in multiset(a);
      var m :| 0 <= m < |b| && b[m] == x;
      WithoutOne(a, |a| - 1);
      WithoutOne(b, m);
      assert r + a[|a|..] == r;
      SameWithout(multiset(r), multiset(b[..m] + b[m + 1..]), x);
      CountPerm(r, b[..m] + b[m + 1..], k);
      CountMiddle(b, m, k);
    }
  }

  lemma CountMiddle(b: seq<DirEnt>, m: nat, k: Key)
    requires m < |b|
    ensures Count(b, k) == Count(b[..m] + b[m + 1..], k) + if Has(b[m], k) then 1 else 0
  {
    var c, d := b[..m], b[m + 1..];
    assert b == b[..m + 1] + d && b[..m + 1][..m] == c;
    CountConcat(b[..m + 1], d, k);
    CountConcat(c, d, k);
  }

  /** A name is unique when it is counted at most once. */
  lemma {:induction false} CountAt(es: seq<DirEnt>, k: Key, i: nat)
    requires i < |es| && Has(es[i], k)
    ensures Count(es, k) >= 1
    ensures Count(es, k) == 1 ==> forall j :: 0 <= j < |es| && j != i ==> !Has(es[j], k)
  {
    var r := es[..|es| - 1];
    if i < |r| {
      CountAt(r, k, i);
    } else if Count(r, k) == 0 {
      CountNone(r, k);
    }
  }

  lemma {:induction false} CountNone(es: seq<DirEnt>, k: Key)
    ensures Count(es, k) == 0 <==> forall j :: 0 <= j < |es| ==> !Has(es[j], k)
  {
    if es != [] {
      CountNone(es[..|es| - 1], k);
    }
  }

  lemma UniqueCounts(es: seq<DirEnt>, k: Key)
    requires Unique(es) && k.Called?
    ensures Count(es, k) <= 1
  {
    if es != [] {
      var r := es[..|es| - 1];
      UniqueCounts(r, k);
      if Has(es[|es| - 1], k) {
        CountNone(r, k);
      }
    }
  }

  lemma CountsUnique(es: seq<DirEnt>)
    requires forall s: string :: Count(es, Called(s)) <= 1
    ensures Unique(es)
  {
    forall i, j | 0 <= i < j < |es| ensures Stem(es[i].name) != Stem(es[j].name) {
      CountAt(es, Called(Stem(es[i].name)), i);
    }
  }

  /** The comparison of entries is an ordering, as `qsort` needs it. */
  lemma EntOrdering()
    ensures Ordering(EntCmp)
  {
    forall x: DirEnt, y: DirEnt ensures EntCmp(x, y) < 0 <==> EntCmp(y, x) > 0 {
      CaseFlip(x.name, y.name);
    }
    forall x: DirEnt, y: DirEnt, z: DirEnt | EntCmp(x, y) <= 0 && EntCmp(y, z) <= 0 ensures EntCmp(x, z) <= 0 {
      CaseTrans(x.name, y.name, z.name);
    }
  }
}
