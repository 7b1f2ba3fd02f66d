/** `mkfs` at work on an image, and the two programs that read one. */
module FszBuild {
  import opened Options
  import Qsort
  import opened Crc
  import opened FszNames
  import opened FszBytes
  import opened FszImage
  import opened FszSteps
  import opened FszLookup
  import opened FszFiles
  import opened FszKernel
  import opened FszLines
  import opened FszRun
  import opened FszClose

  /** The checksum of an inode is computed anew. */
  method Sum(node: Inode) returns (r: Inode)
    ensures r == Summed(node)
  {
    var c := Calculate(HeaderBytes(node));
    r := node.(checksum := c);
  }

  // ---------- readers ----------

  /** The loop over a directory's slots. */
  method FirstHit(img: Image, d: nat, p: string) returns (r: Option<DirEnt>)
    ensures r == Find(img, d, p)
  {
    hide Hit;
    hide IsDir;
    if d >= |img| || !IsDir(img[d]) {
      return None;
    }
    DirSlots(img[d]);
    var slots := img[d].node.body.slots;
    var i := 0;
    while i < |slots| && slots[i].fid != 0
      invariant 0 <= i <= |slots| && Scan(slots, 0, p) == Scan(slots, i, p)
    {
      if Hit(slots[i].name, p) {
        return Some(slots[i]);
      }
      i := i + 1;
    }
    return None;
  }

  lemma DirSlots(s: Sector)
    requires IsDir(s)
    ensures s.INode? && s.node.body.Entries?
  {
  }

  /** `locate`. */
  method LocatePath(img: Image, f: nat, path: string) returns (r: Option<nat>)
    ensures r == Locate(img, f, path)
    decreases |path|
  {
    hide Find;
    hide Slash;
    hide Locate;
    hide RootOf;
    if path == "" {
      NoPath(img, f);
      return Some(f);
    }
    var p := path;
    if p[0] == '/' {
      p := p[1..];
      LocateUnfold(img, f, path, p);
      if p == "" {
        return Some(RootOf(img));
      }
    } else {
      LocateUnfold(img, f, path, p);
    }
    var e := FirstHit(img, if f != 0 then f else RootOf(img), p);
    if e.None? {
      return None;
    }
    var ns := Slash(p);
    if ns == |p| {
      return Some(e.value.fid);
    }
    r := LocatePath(img, e.value.fid, p[ns + 1..]);
  }

  /** `fs_locate`: the inode, its size and its data. */
  method FsLocate(img: Image, fn: string) returns (r: Option<nat>, size: nat, data: Option<seq<Byte>>)
    requires Inv(img) && |img| <= MOST_SECTORS
    ensures r == KernelLocate(img, 1, fn)
    ensures match r
            case None => size == 0 && data == None
            case Some(f) => f < |img| && img[f].INode? && size == img[f].node.size && data == KernelContents(img, f)
  {
    hide Inv;
    hide KernelContents;
    size, data := 0, None;
    InvRoot(img);
    var d, s := RootOf(img), fn;
    while true
      invariant KernelLocate(img, d, s) == KernelLocate(img, 1, fn)
      decreases |s|
    {
      hide WordEnd;
      var e := WordEnd(s);
      var found := FirstWith(img, d, s[..e]);
      if found.None? {
        return None, 0, None;
      }
      KernelFindOk(img, d, s[..e]);
      var f := found.value.fid;
      if AtEnd(s, e) {
        return Some(f), img[f].node.size, KernelContents(img, f);
      }
      d, s := f, s[e..];
    }
  }

  lemma KernelFindOk(img: Image, d: nat, w: string)
    requires Inv(img) && KernelFind(img, d, w).Some?
    ensures var e := KernelFind(img, d, w).value; 0 < e.fid < |img| && img[e.fid].INode?
  {
    hide Crc32c;
    hide SumOk;
    hide LinksOk;
    assert SectorOk(img, img[d]);
    KernelScanIn(Used(img[d].node), 0, w);
  }

  lemma DirRoom(img: Image, d: nat)
    requires Inv(img) && d < |img| && IsDir(img[d])
    ensures DirOk(img, img[d].node) && img[d].node.body.numentries <= |img[d].node.body.slots| == SLOTS
  {
    hide Inv;
    hide DirOk;
    DirAt(img, d);
  }

  /** The first entry of a directory whose name begins with `w`. */
  method FirstWith(img: Image, d: nat, w: string) returns (found: Option<DirEnt>)
    requires Inv(img)
    ensures found == KernelFind(img, d, w)
  {
    hide Inv;
    hide DirOk;
    if d >= |img| || !IsDir(img[d]) {
      return None;
    }
    DirRoom(img, d);
    var node := img[d].node;
    var i := 0;
    while i < node.body.numentries
      invariant 0 <= i <= node.body.numentries
      invariant KernelScan(Used(node), 0, w) == KernelScan(Used(node), i, w)
    {
      var e := node.body.slots[i];
      assert e == Used(node)[i];
      if w <= e.name {
        return Some(e);
      }
      i := i + 1;
    }
    return None;
  }

  // ---------- the builder ----------

  /** Entries are sorted by `qsort`, and their checksum is computed. */
  method SortEntries(es: seq<DirEnt>) returns (r: seq<DirEnt>, sum: bv32)
    ensures |r| == |es| && multiset(r) == multiset(es) && InOrder(r)
    ensures sum == Crc32c(EntriesBytes(r))
  {
    hide Crc32c;
    var a := new DirEnt[|es|](i requires 0 <= i < |es| => es[i]);
    assert a[..] == es;
    EntOrdering();
    Qsort.Sort(a, 0, |es|, EntCmp);
    r := a[..];
    assert r[0..|es|] == r && es[0..|es|] == es;
    sum := Checksum(EntriesBytes(r));
  }

  method Checksum(bytes: seq<Byte>) returns (c: bv32)
    ensures c == Crc32c(bytes)
  {
    c := Calculate(bytes);
  }

  /** What `link_inode` makes of the directory's inode. */
  method Enter(node: Inode, e: DirEnt, time: nat) returns (r: Inode)
    requires node.body.Entries? && Dense(node.body) && node.body.numentries < SLOTS
    ensures Entered(node, r, e, time)
  {
    hide Crc32c;
    hide HeaderBytes;
    hide EntriesBytes;
    hide Summed;
    hide InOrder;
    var n := node.body.numentries;
    var es, sum := SortEntries(Used(node) + [e]);
    var slots := es + node.body.slots[n + 1..];
    assert slots[..n + 1] == es && slots[n + 1..] == node.body.slots[n + 1..];
    var t := node.(size := node.size + ENTRY, modified := time, body := Entries(n + 1, sum, slots));
    r := Sum(t);
    SummedOk(t);
  }

  // ---------- new inodes ----------

  /** An inode as `add_inode` writes it, but for its data. */
  function Fresh(filetype: FileType, mimetype: MimeType, owner: Owner, time: nat): Inode {
    Inode(0, filetype, mimetype, time, 0, 0, 0, 0, time, Direct, owner, Blank())
  }

  function EmptySlots(): (s: seq<DirEnt>)
    ensures |s| == SLOTS
  {
    seq(SLOTS, i => FREE)
  }

  /** A new directory, at sector `f`. */
  method NewDir(f: nat, mimetype: MimeType, owner: Owner, time: nat) returns (node: Inode)
    ensures New(INode(node)) && IsDir(INode(node))
  {
    hide Crc32c;
    hide HeaderBytes;
    var sum := Checksum(EntriesBytes([]));
    node := Fresh(DIR_TYPE, mimetype, owner, time).(sec := f, layout := Inline, size := ENTRY,
                                                    body := Entries(0, sum, EmptySlots()));
    SummedOk(node);
    node := Sum(node);
  }

  /** A new symbolic link: its target is kept behind the inode. */
  method NewSymlink(filetype: FileType, target: seq<Byte>, owner: Owner, time: nat) returns (node: Inode)
    requires filetype != DIR_TYPE && |target| < INLINE
    ensures New(INode(node)) && !IsDir(INode(node)) && node.body.Bytes? && target <= node.body.data && node.size == |target|
  {
    hide Crc32c;
    hide HeaderBytes;
    node := Fresh(filetype, Zeroed(44), owner, time).(size := |target|,
              body := Bytes(target + Zeroed(INLINE - |target|)));
    SummedOk(node);
    node := Sum(node);
  }

  // ---------- the data of a file ----------

  /** How much of a sector is copied: all of it, or what is left, when `l` sectors precede the data. */
  function CopyLength(n: nat, i: nat, l: nat): nat {
    if (i + l) * SECTOR > n then n % SECTOR else SECTOR
  }

  lemma CopyEnough(n: nat, i: nat, l: nat, m: nat)
    requires n > SECTOR && i < SectorsFor(n) && l <= 1 && CopyLength(n, i, l) <= m < SECTOR
    ensures i * SECTOR + m >= n
  {
  }

  /** One sector of a file, in a buffer that was cleared. */
  method CopySector(data: seq<Byte>, i: nat, l: nat) returns (raw: seq<Byte>)
    requires |data| > SECTOR && i < SectorsFor(|data|) && l <= 1
    ensures raw == Chunk(data, i)
  {
    var a := new Byte[SECTOR](_ => 0);
    var n := CopyLength(|data|, i, l);
    for m := 0 to n
      invariant forall k :: 0 <= k < m ==> a[k] == ByteOr0(data, i * SECTOR + k)
      invariant forall k :: m <= k < SECTOR ==> a[k] == 0
    {
      a[m] := ByteOr0(data, i * SECTOR + m);
    }
    forall k | n <= k < SECTOR ensures a[k] == ByteOr0(data, i * SECTOR + k) {
      CopyEnough(|data|, i, l, k);
    }
    raw := a[..];
    assert |raw| == SECTOR && forall k :: 0 <= k < SECTOR ==> raw[k] == ByteOr0(data, i * SECTOR + k);
  }

  /** The addresses and the sectors of a file that takes several, from sector `k0` on. */
  method CopySectors(data: seq<Byte>, k0: nat, l: nat) returns (list: seq<nat>, chunks: seq<Sector>)
    requires |data| > SECTOR && l <= 1
    ensures list == Numbered(k0, SectorsFor(|data|)) && chunks == Chunks(data, SectorsFor(|data|))
  {
    hide Chunk;
    var j := SectorsFor(|data|);
    var k := k0;
    list, chunks := [], [];
    for i := 0 to j
      invariant k == k0 + i && |list| == i == |chunks|
      invariant forall m :: 0 <= m < i ==> list[m] == k0 + m
      invariant forall m :: 0 <= m < i ==> chunks[m] == Data(Chunk(data, m))
    {
      var raw := CopySector(data, i, l);
      list := list + [k];
      chunks := chunks + [Data(raw)];
      k := k + 1;
    }
  }

  /** A file of several sectors, with its sector directory in the inode's own sector or in one of its own. */
  method LayOutMany(base: nat, data: seq<Byte>, proto: Inode) returns (node: Inode, tail: seq<Sector>)
    requires |data| > SECTOR
    ensures node == FileNode(base, data, proto) && tail == FileTail(base, data)
  {
    hide Chunks;
    hide Numbered;
    var j := SectorsFor(|data|);
    node := proto.(size := |data|, sec := base + 1);
    if j * 16 <= INLINE {
      var list, chunks := CopySectors(data, base + 1, 0);
      node := node.(layout := SectorDirInline, numblocks := j, body := Sectors(list));
      tail := chunks;
    } else {
      var list, chunks := CopySectors(data, base + 2, 1);
      node := node.(layout := SectorDir, numblocks := 1 + j, body := Blank());
      tail := [SecDir(list)] + chunks;
    }
  }

  /** The layout part of `add_file`: all sectors of a file, its inode being at `base`. */
  method LayOut(base: nat, data: seq<Byte>, proto: Inode) returns (ok: bool, ss: seq<Sector>)
    ensures ok <==> !TooBig(data)
    ensures ok ==> ss == FileSectors(base, data, proto)
  {
    hide Summed;
    hide Chunks;
    var n := |data|;
    var node, tail := proto.(size := n), [];
    if n <= INLINE {
      node := node.(sec := base, layout := Inline, numblocks := 0, body := Bytes(data + Zeroed(INLINE - n)));
    } else if n > SECTOR {
      if SectorsFor(n) * 16 > SECTOR {
        return false, [];
      }
      node, tail := LayOutMany(base, data, proto);
    } else {
      tail := Chunks(data, 1);
      if AllZero(data) {
        node := node.(sec := 0, layout := Direct, numblocks := 0, body := Blank());
      } else {
        node := node.(sec := base + 1, layout := Direct, numblocks := 1, body := Blank());
      }
    }
    node := Sum(node);
    return true, [INode(node)] + tail;
  }

  class Builder {
    var img: Image
    const time: nat

    /** The end of `link_inode`: the entry is added to the directory at `d`. */
    method Insert(d: nat, e: DirEnt)
      requires d < |img| && IsDir(img[d]) && Dense(img[d].node.body) && img[d].node.body.numentries < SLOTS
      requires e.fid < |img| && e.fid != d && img[e.fid].INode?
      modifies this
      ensures Link(old(img), img, d, e, time)
    {
      hide Entered;
      hide Summed;
      hide Dense;
      var node := Enter(img[d].node, e, time);
      img := img[d := INode(node)];
      var in2 := img[e.fid].node;
      in2 := Sum(in2.(numlinks := in2.numlinks + 1));
      img := img[e.fid := INode(in2)];
    }
  
    /** `link_inode`, from the directory at `d0`. */
    method LinkInode(f: nat, path: string, d0: nat)
      requires Walk(img, d0, path).Some?
      requires var (d, rest) := Walk(img, d0, path).value;
               && d < |img| && IsDir(img[d]) && Dense(img[d].node.body) && img[d].node.body.numentries < SLOTS
               && f < |img| && f != d && img[f].INode?
      modifies this
      ensures var (d, rest) := old(Walk(img, d0, path)).value;
              Link(old(img), img, d, DirEnt(f, if IsDir(old(img[f])) then rest + "/" else rest), time)
      decreases |path|
    {
      hide Link;
      hide StrnEq;
      if d0 < |img| && IsDir(img[d0]) {
        var slots := img[d0].node.body.slots;
        var ns := Slash(path);
        var i := 0;
        while i < |slots| && slots[i].fid != 0
          invariant 0 <= i <= |slots| && ScanLink(slots, 0, path) == ScanLink(slots, i, path)
          invariant img == old(img)
        {
          if StrnEq(slots[i].name, path, ns + 1) {
            LinkInode(f, path[ns + 1..], slots[i].fid);
            return;
          }
          i := i + 1;
        }
      }
      Insert(d0, DirEnt(f, if IsDir(img[f]) then path + "/" else path));
    }
  
    /** New sectors are appended, and their inode is entered at the path. */
    method AppendAndLink(ss: seq<Sector>, path: string)
      requires Inv(img) && Enterable(img, path) && ss != [] && ss[0].INode?
      modifies this
      ensures var (d, rest) := old(Walk(img, 1, path)).value;
              Link(old(img) + ss, img, d, DirEnt(|old(img)|, if IsDir(ss[0]) then rest + "/" else rest), time)
    {
      hide Inv;
      hide Link;
      hide Walk;
      InvRoot(img);
      WalkAppend(img, ss, 1, path);
      ghost var d := Walk(img, 1, path).value.0;
      DirRoom(img, d);
      var f := |img|;
      assert (img + ss)[d] == img[d] && (img + ss)[f] == ss[0];
      img := img + ss;
      LinkInode(f, path, 1);
    }

    /** `add_file`. */
    method AddFile(path: string, data: seq<Byte>, filetype: FileType, mimetype: MimeType, owner: Owner)
      returns (ok: bool, ghost made: seq<Sector>)
      requires Inv(img) && Enterable(img, path) && filetype != DIR_TYPE
      modifies this
      ensures ok <==> !TooBig(data)
      ensures ok ==> Inv(img) && Did(old(img), img, MakeFile(path, data), made, time)
    {
      hide Inv;
      hide Link;
      hide Walk;
      hide Enterable;
      hide New;
      hide IsDir;
      hide Makes;
      hide FileSectors;
      hide TooBig;
      var ss;
      var proto := Fresh(filetype, mimetype, owner, time);
      ok, ss := LayOut(|img|, data, proto);
      made := ss;
      if !ok {
        return;
      }
      ghost var a := img;
      FileMakes(a, path, data, proto);
      FirstMade(a, MakeFile(path, data), ss);
      MakesNew(a, MakeFile(path, data), ss);
      AppendAndLink(ss, path);
      DidInv(a, img, MakeFile(path, data), ss, time);
    }

    /** A directory of the host is added. */
    method AddDir(path: string, mimetype: MimeType, owner: Owner) returns (ghost made: seq<Sector>)
      requires Inv(img) && Enterable(img, path)
      modifies this
      ensures Inv(img) && Did(old(img), img, MakeDir(path), made, time)
    {
      hide Inv;
      hide Link;
      hide Walk;
      hide Enterable;
      hide New;
      ghost var a := img;
      var node := NewDir(|img|, mimetype, owner, time);
      made := [INode(node)];
      AppendAndLink([INode(node)], path);
      DidInv(a, img, MakeDir(path), made, time);
    }

    /** A symbolic link of the host is added. */
    method AddSymlink(path: string, target: seq<Byte>, filetype: FileType, owner: Owner) returns (ghost made: seq<Sector>)
      requires Inv(img) && Enterable(img, path) && filetype != DIR_TYPE && |target| < INLINE
      modifies this
      ensures Inv(img) && Did(old(img), img, MakeSymlink(path, target), made, time)
    {
      hide Inv;
      hide Link;
      hide Walk;
      hide Enterable;
      hide New;
      ghost var a := img;
      var node := NewSymlink(filetype, target, owner, time);
      made := [INode(node)];
      AppendAndLink([INode(node)], path);
      DidInv(a, img, MakeSymlink(path, target), made, time);
    }

    /** The end of `createimage`: the superblock gets the number of sectors and its checksum. */
    method Finish()
      requires Inv(img)
      modifies this
      ensures Inv(img) && Closable(old(img)) && img == Finished(old(img))
    {
      hide Inv;
      hide NewSuper;
      hide Crc32c;
      InvRoot(img);
      ClosedSuper(img);
      var raw, n := img[0].raw, |img|;
      raw := Put(raw, NUMSEC, Little(n, 8));
      raw := Put(raw, FREESEC, Little(n, 8));
      var c := Checksum(raw[COUNTED..SUM]);
      raw := Put(raw, SUM, Little(c as nat, 4));
      SuperInv(img, Super(img[0].root, raw));
      img := img[0 := Super(img[0].root, raw)];
    }

    /** `createimage`, before anything is added: the superblock and the root directory, which counts as linked. */
    constructor (raw: seq<Byte>, mimetype: MimeType, owner: Owner, time: nat)
      requires |raw| == SECTOR && raw[512..516] == MAGIC
      ensures Inv(img) && Downward(img) && |img| == 2 && this.time == time
    {
      var node := NewDir(1, mimetype, owner, time);
      var root := Sum(node.(numlinks := 1));
      img := [Super(1, raw), INode(root)];
      this.time := time;
      RootOk(raw, node);
    }
  }

  lemma RootOk(raw: seq<Byte>, node: Inode)
    requires |raw| == SECTOR && raw[512..516] == MAGIC && New(INode(node)) && IsDir(INode(node))
    ensures var img := [Super(1, raw), INode(Summed(node.(numlinks := 1)))]; Inv(img) && Downward(img)
  {
    hide Crc32c;
    hide HeaderBytes;
    var root := Summed(node.(numlinks := 1));
    SummedOk(node.(numlinks := 1));
    var img := [Super(1, raw), INode(root)];
    assert Used(root) == [];
    assert SectorOk(img, img[0]) && SectorOk(img, img[1]);
    assert Refs(img, 1, 1) == 0;
    assert Refs(img, 1, 2) == 0;
  }

  lemma FileMakes(a: Image, path: string, data: seq<Byte>, proto: Inode)
    requires !TooBig(data) && FileProto(proto)
    ensures Makes(a, MakeFile(path, data), FileSectors(|a|, data, proto))
  {
    hide FileTail;
    hide Summed;
    var m := FileNode(|a|, data, proto);
    var q := Summed(m);
    assert FileNode(|a|, data, q) == m.(checksum := q.checksum);
    SummedAgain(m, q.checksum);
  }

  lemma SummedAgain(node: Inode, c: bv32)
    ensures Summed(node.(checksum := c)) == Summed(node)
  {
    hide Crc32c;
  }
}
