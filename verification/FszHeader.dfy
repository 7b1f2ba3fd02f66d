/** What the bytes of inodes and directory entries say, and which stale records their checksums give away. */
module FszHeader {
  import opened Options
  import opened CrcTables
  import opened Crc
  import opened FszBytes
  import opened FszImage

  // 2 ^ 32, 2 ^ 64 and 2 ^ 128
  const HALF := 0x1_0000_0000
  const WORD := 0x1_0000_0000_0000_0000
  const WIDE := 0x1_0000_0000_0000_0000_0000_0000_0000_0000

  /** The number of `n` bytes at `at`. */
  function NumberAt(raw: seq<Byte>, at: nat, n: nat): nat
    requires at + n <= |raw|
  {
    Number(raw[at..at + n])
  }

  // ---------- inodes ----------

  /** The layout that an inode's flags stand for: their lowest byte decides. */
  function LayoutOf(flags: nat): Option<Layout> {
    match flags % 256
    case 0xFF => Some(Inline)
    case 0 => Some(Direct)
    case 0x7F => Some(SectorDirInline)
    case 1 => Some(SectorDir)
    case _ => None
  }

  /** The flags decide the layout. */
  lemma LayoutKept(l: Layout)
    ensures LayoutOf(LayoutFlags(l) % HALF) == Some(l)
  {
  }

  lemma FieldRead(node: Inode, k: nat, f: Field)
    requires k < |HeaderFields(node)| && HeaderFields(node)[k] == f && f.at + |f.bytes| <= HEADER
    ensures HeaderBytes(node)[f.at..f.at + |f.bytes|] == f.bytes
  {
    hide HeaderFields;
    HeaderFit(node);
    FieldKept(Zeroed(HEADER), HeaderFields(node), k);
  }

  lemma WordRead(node: Inode, k: nat, at: nat, v: nat)
    requires at + 8 <= HEADER && k < |HeaderFields(node)| && HeaderFields(node)[k] == Field(at, Little(v, 8))
    ensures NumberAt(HeaderBytes(node), at, 8) == v % WORD
  {
    hide HeaderFields;
    hide Little;
    hide HeaderBytes;
    FieldRead(node, k, Field(at, Little(v, 8)));
    LittleNumber(v, 8);
    assert Power(8) == WORD;
  }

  /** The words of an inode, at the offsets of `FSZ_Inode` less 8. */
  lemma HeaderWords(node: Inode)
    ensures var h := HeaderBytes(node);
            && NumberAt(h, 80 - 8, 8) == node.changed % WORD && NumberAt(h, 96 - 8, 8) == node.numblocks % WORD
            && NumberAt(h, 104 - 8, 8) == node.numlinks % WORD && NumberAt(h, 448 - 8, 8) == node.sec % WORD
            && NumberAt(h, 464 - 8, 8) == node.size % WORD && NumberAt(h, 480 - 8, 8) == node.modified % WORD
  {
    hide Little;
    hide NumberAt;
    WordRead(node, 2, 72, node.changed);
    WordRead(node, 3, 88, node.numblocks);
    WordRead(node, 4, 96, node.numlinks);
    WordRead(node, 5, 440, node.sec);
    WordRead(node, 6, 456, node.size);
    WordRead(node, 7, 472, node.modified);
  }

  lemma HalfRead(node: Inode, k: nat, at: nat, v: nat)
    requires at + 4 <= HEADER && k < |HeaderFields(node)| && HeaderFields(node)[k] == Field(at, Little(v, 4))
    ensures NumberAt(HeaderBytes(node), at, 4) == v % HALF
  {
    hide HeaderFields;
    hide Little;
    hide HeaderBytes;
    FieldRead(node, k, Field(at, Little(v, 4)));
    LittleNumber(v, 4);
    assert Power(4) == HALF;
  }

  /** The other fields of an inode, as they are read. */
  lemma HeaderParts(node: Inode)
    ensures var h := HeaderBytes(node);
            && h[8 - 8..12 - 8] == node.filetype && h[12 - 8..56 - 8] == node.mimetype && h[496 - 8..512 - 8] == node.owner
            && LayoutOf(NumberAt(h, 492 - 8, 4)) == Some(node.layout)
  {
    hide Little;
    hide HeaderBytes;
    FieldRead(node, 0, Field(0, node.filetype));
    FieldRead(node, 1, Field(4, node.mimetype));
    FieldRead(node, 9, Field(488, node.owner));
    hide NumberAt;
    HalfRead(node, 8, 484, LayoutFlags(node.layout));
    LayoutKept(node.layout);
    hide LayoutOf;
  }

  /** Places of an inode that the model has no field for. */
  predicate Reserved(x: nat) {
    48 <= x < 72 || 80 <= x < 88 || 104 <= x < 440 || 448 <= x < 456 || 464 <= x < 472 || 480 <= x < 484 || 504 <= x < HEADER
  }

  lemma HeaderRest(node: Inode, x: nat)
    requires Reserved(x)
    ensures HeaderBytes(node)[x] == 0
  {
    hide Little;
    HeaderFit(node);
    RestKept(Zeroed(HEADER), HeaderFields(node), x);
  }

  /** The header decides the inode, apart from its checksum and what lies behind the header. */
  predicate SameHeader(a: Inode, b: Inode) {
    && a.filetype == b.filetype && a.mimetype == b.mimetype && a.owner == b.owner && a.layout == b.layout
    && a.changed % WORD == b.changed % WORD && a.numblocks % WORD == b.numblocks % WORD
    && a.numlinks % WORD == b.numlinks % WORD && a.sec % WORD == b.sec % WORD
    && a.size % WORD == b.size % WORD && a.modified % WORD == b.modified % WORD
  }

  lemma SameWord(v: nat, w: nat)
    requires v % WORD == w % WORD
    ensures Little(v, 8) == Little(w, 8)
  {
    hide Little;
    LittleNumber(v, 8);
    LittleNumber(w, 8);
    assert Power(8) == WORD;
    NumberDecides(Little(v, 8), Little(w, 8));
  }

  /** Two inodes have the same header exactly if they agree in every field, as far as 64 bits show it. */
  lemma HeaderDecides(a: Inode, b: Inode)
    ensures HeaderBytes(a) == HeaderBytes(b) <==> SameHeader(a, b)
  {
    hide Little;
    if SameHeader(a, b) {
      SameWord(a.changed, b.changed);
      SameWord(a.numblocks, b.numblocks);
      SameWord(a.numlinks, b.numlinks);
      SameWord(a.sec, b.sec);
      SameWord(a.size, b.size);
      SameWord(a.modified, b.modified);
      assert HeaderFields(a) == HeaderFields(b);
    } else {
      HeaderWords(a);
      HeaderWords(b);
      HeaderParts(a);
      HeaderParts(b);
    }
  }

  // ---------- stale inodes ----------

  /** The same bytes but for four places from `i`. */
  ghost predicate InWindow(a: seq<Byte>, b: seq<Byte>, i: nat) {
    |a| == |b| && i + 4 <= |a| && forall x :: 0 <= x < |a| && (x < i || i + 4 <= x) ==> a[x] == b[x]
  }

  /** Records that differ in four neighbouring bytes only have different checksums. */
  lemma WindowDetected(a: seq<Byte>, b: seq<Byte>, i: nat)
    requires InWindow(a, b, i) && a != b
    ensures Crc32c(a) != Crc32c(b)
  {
    var x, y := a[..i], a[i + 4..];
    assert b[..i] == x && b[i + 4..] == y;
    assert a == x + a[i..i + 4] + y && b == x + b[i..i + 4] + y;
    BytesDetected(Castagnoli, 0, x, a[i..i + 4], b[i..i + 4], y);
  }

  /** Numbers that agree above their lowest four bytes agree in the bytes from the fifth on. */
  lemma HighBytes(v: nat, w: nat, n: nat, x: nat)
    requires 4 <= x < n && v / HALF == w / HALF
    ensures Little(v, n)[x] == Little(w, n)[x]
  {
    hide Little;
    LittleSplit(v, n, 4);
    LittleSplit(w, n, 4);
    AboveHalf(v);
    AboveHalf(w);
  }

  lemma AboveHalf(v: nat)
    ensures Above(v, 4) == v / HALF
  {
    assert Above(v, 4) == v / 256 / 256 / 256 / 256;
  }

  /** Two inodes that differ in one word, and there in its lower half only. */
  ghost predicate OneWord(a: Inode, b: Inode, k: nat, at: nat, v: nat, w: nat) {
    && Alike(HeaderFields(a), HeaderFields(b), k) && at + 8 <= HEADER
    && HeaderFields(a)[k] == Field(at, Little(v, 8)) && HeaderFields(b)[k] == Field(at, Little(w, 8)) && v / HALF == w / HALF
  }

  lemma WordWindow(a: Inode, b: Inode, k: nat, at: nat, v: nat, w: nat)
    requires OneWord(a, b, k, at, v, w)
    ensures InWindow(HeaderBytes(a), HeaderBytes(b), at)
  {
    hide HeaderFields;
    hide Little;
    var g, h := HeaderBytes(a), HeaderBytes(b);
    HeaderFit(a);
    HeaderFit(b);
    hide HeaderBytes;
    forall x | 0 <= x < HEADER && (x < at || at + 4 <= x) ensures g[x] == h[x] {
      if at <= x < at + 8 {
        FieldRead(a, k, Field(at, Little(v, 8)));
        FieldRead(b, k, Field(at, Little(w, 8)));
        assert g[x] == g[at..at + 8][x - at] && h[x] == h[at..at + 8][x - at];
        HighBytes(v, w, 8, x - at);
      } else {
        HeaderElsewhere(a, b, k, x);
      }
    }
  }

  lemma HeaderElsewhere(a: Inode, b: Inode, k: nat, x: nat)
    requires Alike(HeaderFields(a), HeaderFields(b), k) && x < HEADER
    requires x < HeaderFields(a)[k].at || After(HeaderFields(a)[k]) <= x
    ensures HeaderBytes(a)[x] == HeaderBytes(b)[x]
  {
    hide HeaderFields;
    HeaderFit(a);
    HeaderFit(b);
    OneFieldDiffers(Zeroed(HEADER), HeaderFields(a), HeaderFields(b), k, x);
  }

  /** A word that was changed in its lower half needs a new checksum. */
  lemma StaleWord(a: Inode, b: Inode, k: nat, at: nat, v: nat, w: nat)
    requires OneWord(a, b, k, at, v, w) && !SameHeader(a, b) && SumOk(a) && a.checksum == b.checksum
    ensures !SumOk(b)
  {
    WordWindow(a, b, k, at, v, w);
    HeaderDecides(a, b);
    WindowDetected(HeaderBytes(a), HeaderBytes(b), at);
  }

  /** So an inode whose links were counted anew is not valid until its checksum is written. */
  lemma StaleLinks(node: Inode, n: nat)
    requires SumOk(node) && n != node.numlinks && n / HALF == node.numlinks / HALF
    ensures !SumOk(node.(numlinks := n))
  {
    hide Little;
    hide SumOk;
    SameLow(n, node.numlinks);
    StaleWord(node, node.(numlinks := n), 4, 96, node.numlinks, n);
  }

  /** Nor is one whose size changed. */
  lemma StaleSize(node: Inode, n: nat)
    requires SumOk(node) && n != node.size && n / HALF == node.size / HALF
    ensures !SumOk(node.(size := n))
  {
    hide Little;
    hide SumOk;
    SameLow(n, node.size);
    StaleWord(node, node.(size := n), 6, 456, node.size, n);
  }

  lemma SameLow(v: nat, w: nat)
    requires v / HALF == w / HALF && v != w
    ensures v % WORD != w % WORD
  {
  }

  // ---------- directory entries ----------

  lemma {:induction false} EntriesLength(es: seq<DirEnt>)
    ensures |EntriesBytes(es)| == ENTRY * |es|
  {
    hide EntryBytes;
    if es != [] {
      EntriesLength(es[..|es| - 1]);
    }
  }

  /** Every entry takes 128 bytes, in the order of the directory. */
  lemma {:induction false} EntryRead(es: seq<DirEnt>, k: nat)
    requires k < |es|
    ensures |EntriesBytes(es)| == ENTRY * |es| && EntriesBytes(es)[ENTRY * k..ENTRY * (k + 1)] == EntryBytes(es[k])
  {
    hide EntryBytes;
    var r := es[..|es| - 1];
    EntriesLength(es);
    EntriesLength(r);
    if k < |r| {
      EntryRead(r, k);
      assert EntriesBytes(es)[..|EntriesBytes(r)|] == EntriesBytes(r);
    }
  }

  /** An entry that fits into its slot. */
  predicate Storable(e: DirEnt) {
    e.fid < WIDE && |e.name| <= 111 && forall i :: 0 <= i < |e.name| ==> e.name[i] as nat < 256
  }

  lemma WidePower()
    ensures Power(16) == WIDE
  {
    assert Power(8) == WORD;
    assert Power(11) == 0x100_0000 * WORD;
    assert Power(14) == 0x1_0000_0000_0000 * WORD;
  }

  lemma EntryFid(e: DirEnt)
    ensures EntryBytes(e)[0..16] == Little(e.fid, 16) && NumberAt(EntryBytes(e), 0, 16) == e.fid % WIDE
  {
    hide Little;
    hide Number;
    hide ByteOf;
    hide NameBytes;
    assert EntryBytes(e)[0..16] == Little(e.fid, 16);
    hide EntryBytes;
    LittleNumber(e.fid, 16);
    WidePower();
  }

  lemma EntryChar(e: DirEnt, j: nat)
    requires j < 111
    ensures FromByte(EntryBytes(e)[17 + j]) == if j < |e.name| then e.name[j] as nat % 256 else 0
  {
    hide Little;
    hide ByteOf;
    hide FromByte;
    assert EntryBytes(e)[17 + j] == NameBytes(e.name, 111)[j];
    if j < |e.name| {
      ByteNumber(e.name[j] as nat);
    } else {
      NoByte();
    }
  }

  /** The parts of an entry, as they are read. */
  lemma EntryParts(e: DirEnt)
    ensures var b := EntryBytes(e);
            && NumberAt(b, 0, 16) == e.fid % WIDE && FromByte(b[16]) == |e.name| % 256
            && forall j :: 0 <= j < 111 ==> FromByte(b[17 + j]) == if j < |e.name| then e.name[j] as nat % 256 else 0
  {
    hide Little;
    hide NumberAt;
    hide ByteOf;
    hide FromByte;
    hide NameBytes;
    EntryFid(e);
    ByteNumber(|e.name|);
    assert EntryBytes(e)[16] == ByteOf(|e.name|);
    hide EntryBytes;
    forall j | 0 <= j < 111 ensures FromByte(EntryBytes(e)[17 + j]) == if j < |e.name| then e.name[j] as nat % 256 else 0 {
      EntryChar(e, j);
    }
  }

  lemma NoByte()
    ensures FromByte(0) == 0
  {
  }

  /** Entries that can be stored are read back as they were. */
  lemma EntryDecides(a: DirEnt, b: DirEnt)
    requires Storable(a) && Storable(b) && EntryBytes(a) == EntryBytes(b)
    ensures a == b
  {
    hide EntryBytes;
    hide FromByte;
    hide NumberAt;
    EntrySizes(a);
    EntrySizes(b);
    forall j | 0 <= j < |a.name| ensures a.name[j] == b.name[j] {
      EntryChar(a, j);
      EntryChar(b, j);
    }
  }

  lemma EntrySizes(e: DirEnt)
    requires Storable(e)
    ensures NumberAt(EntryBytes(e), 0, 16) == e.fid && FromByte(EntryBytes(e)[16]) == |e.name|
  {
    hide NumberAt;
    hide FromByte;
    hide EntryBytes;
    EntryParts(e);
  }

  /** So the bytes of a directory decide its entries. */
  lemma EntriesDecide(a: seq<DirEnt>, b: seq<DirEnt>)
    requires (forall e :: e in a ==> Storable(e)) && forall e :: e in b ==> Storable(e)
    ensures EntriesBytes(a) == EntriesBytes(b) <==> a == b
  {
    hide EntriesBytes;
    hide EntryBytes;
    hide Storable;
    if EntriesBytes(a) == EntriesBytes(b) {
      EntriesLength(a);
      EntriesLength(b);
      forall k | 0 <= k < |a| ensures a[k] == b[k] {
        EntryRead(a, k);
        EntryRead(b, k);
        EntryDecides(a[k], b[k]);
      }
    }
  }

  lemma EntryBesides(e: DirEnt, f: nat, y: nat)
    requires f / HALF == e.fid / HALF && 4 <= y < ENTRY
    ensures EntryBytes(e)[y] == EntryBytes(e.(fid := f))[y]
  {
    hide Little;
    hide ByteOf;
    if y < 16 {
      HighBytes(e.fid, f, 16, y);
    }
  }

  lemma EntryWindow(es: seq<DirEnt>, k: nat, f: nat)
    requires k < |es| && f / HALF == es[k].fid / HALF
    ensures InWindow(EntriesBytes(es), EntriesBytes(es[k := es[k].(fid := f)]), ENTRY * k)
  {
    hide EntriesBytes;
    hide EntryBytes;
    var fs := es[k := es[k].(fid := f)];
    var a, b := EntriesBytes(es), EntriesBytes(fs);
    EntriesLength(es);
    EntriesLength(fs);
    forall x | 0 <= x < |a| && (x < ENTRY * k || ENTRY * k + 4 <= x) ensures a[x] == b[x] {
      var q, y := x / ENTRY, x % ENTRY;
      EntryRead(es, q);
      EntryRead(fs, q);
      assert a[x] == a[ENTRY * q..ENTRY * (q + 1)][y] && b[x] == b[ENTRY * q..ENTRY * (q + 1)][y];
      if q == k {
        EntryBesides(es[k], f, y);
      }
    }
  }

  lemma OtherFid(v: nat, w: nat)
    requires v / HALF == w / HALF && v != w
    ensures v % WIDE != w % WIDE
  {
  }

  /** A directory that names another inode needs a new checksum. */
  lemma StaleEntry(es: seq<DirEnt>, k: nat, f: nat)
    requires k < |es| && f != es[k].fid && f / HALF == es[k].fid / HALF
    ensures Crc32c(EntriesBytes(es)) != Crc32c(EntriesBytes(es[k := es[k].(fid := f)]))
  {
    hide Crc32c;
    hide EntriesBytes;
    hide EntryBytes;
    hide NumberAt;
    var e, fs := es[k], es[k := es[k].(fid := f)];
    EntryWindow(es, k, f);
    EntryRead(es, k);
    EntryRead(fs, k);
    EntryFid(e);
    EntryFid(e.(fid := f));
    OtherFid(f, e.fid);
    WindowDetected(EntriesBytes(es), EntriesBytes(fs), ENTRY * k);
  }

  lemma StaleDirectory(img: Image, node: Inode, k: nat, f: nat)
    requires node.body.Entries? && DirOk(img, node) && k < node.body.numentries
    requires f != node.body.slots[k].fid && f / HALF == node.body.slots[k].fid / HALF
    ensures !DirOk(img, node.(body := node.body.(slots := node.body.slots[k := node.body.slots[k].(fid := f)])))
  {
    hide Crc32c;
    hide EntriesBytes;
    hide EntryOk;
    hide InOrder;
    hide Unique;
    var b := node.body;
    var es := Used(node);
    StaleEntry(es, k, f);
    assert b.slots[k := b.slots[k].(fid := f)][..b.numentries] == es[k := es[k].(fid := f)];
  }
}
