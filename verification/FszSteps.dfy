/** The two ways in which the builder changes an image: sectors are appended, and an inode is entered
    in a directory. Both keep the image well formed. */
module FszSteps {
  import opened FszNames
  import opened FszImage

  // ---------- appending ----------

  /** A sector as it is first written: inodes are not linked yet, directories are empty. */
  predicate New(s: Sector) {
    match s
    case Super(root, raw) => false
    case Data(raw) => |raw| == SECTOR
    case SecDir(list) => true
    case INode(node) =>
      && SumOk(node) && node.numlinks == 0 && (IsDir(s) <==> node.filetype == DIR_TYPE)
      && (IsDir(s) ==> Dense(node.body) && node.body.numentries == 0 && node.size == ENTRY
                       && node.body.sum == Crc32c(EntriesBytes([])))
  }

  lemma {:induction false} RefsPrefix(a: Image, b: Image, f: nat, n: nat)
    requires n <= |a| && n <= |b| && a[..n] == b[..n]
    ensures Refs(a, f, n) == Refs(b, f, n)
  {
    if n > 0 {
      assert a[..n][..n - 1] == a[..n - 1] && b[..n][..n - 1] == b[..n - 1];
      RefsPrefix(a, b, f, n - 1);
      assert a[n - 1] == a[..n][n - 1] == b[..n][n - 1] == b[n - 1];
    }
  }

  /** Directories name only inodes that are there. */
  lemma {:induction false} RefsNone(a: Image, f: nat, n: nat)
    requires n <= |a| && forall i :: 0 <= i < n ==> RefsIn(a[i], f) == 0
    ensures Refs(a, f, n) == 0
  {
    if n > 0 {
      RefsNone(a, f, n - 1);
    }
  }

  lemma RefsInside(a: Image, s: Sector, f: nat)
    requires SectorOk(a, s) && f >= |a|
    ensures RefsIn(s, f) == 0
  {
    if IsDir(s) {
      var es := Used(s.node);
      forall j | 0 <= j < |es| ensures !Has(es[j], Fid(f)) {
        assert es[j] in es;
      }
      CountNone(es, Fid(f));
    }
  }

  lemma {:induction false} RefsAppend(a: Image, ss: seq<Sector>, f: nat, n: nat)
    requires n <= |ss| && forall s :: s in ss ==> New(s)
    ensures Refs(a + ss, f, |a| + n) == Refs(a, f, |a|)
    decreases n
  {
    hide SumOk;
    hide Crc32c;
    if n == 0 {
      assert (a + ss)[..|a|] == a[..|a|];
      RefsPrefix(a + ss, a, f, |a|);
    } else {
      RefsAppend(a, ss, f, n - 1);
      assert (a + ss)[|a| + n - 1] == ss[n - 1] && ss[n - 1] in ss;
      if IsDir(ss[n - 1]) {
        assert Used(ss[n - 1].node) == [];
      }
    }
  }

  /** What is well formed in an image is so in a longer one. */
  lemma SectorOkLonger(a: Image, ss: seq<Sector>, s: Sector)
    requires SectorOk(a, s)
    ensures SectorOk(a + ss, s)
  {
    hide SumOk;
    hide Crc32c;
    if IsDir(s) {
      forall e | e in Used(s.node) ensures EntryOk(a + ss, e) {
        assert EntryOk(a, e);
      }
    }
  }

  lemma NewOk(a: Image, s: Sector)
    requires New(s)
    ensures SectorOk(a, s) && !s.Super?
  {
    hide SumOk;
    hide Crc32c;
    if IsDir(s) {
      assert Used(s.node) == [];
    }
  }

  lemma SectorOkAppend(a: Image, ss: seq<Sector>, i: nat)
    requires i < |a + ss| && (forall s :: s in ss ==> New(s)) && (i < |a| ==> SectorOk(a, a[i]))
    ensures SectorOk(a + ss, (a + ss)[i]) && (i >= |a| ==> !(a + ss)[i].Super?)
  {
    hide SectorOk;
    hide New;
    if i < |a| {
      SectorOkLonger(a, ss, a[i]);
    } else {
      assert (a + ss)[i] in ss;
      NewOk(a + ss, (a + ss)[i]);
    }
  }

  lemma LinksOkAppend(a: Image, ss: seq<Sector>, f: nat)
    requires f < |a + ss| && a != [] && (forall s :: s in ss ==> New(s)) && (f < |a| ==> LinksOk(a, f))
    requires |a| > 1 && forall i :: 0 <= i < |a| ==> SectorOk(a, a[i])
    ensures LinksOk(a + ss, f)
  {
    hide SectorOk;
    hide RefsIn;
    hide Refs;
    RefsAppend(a, ss, f, |ss|);
    if f >= |a| {
      forall i | 0 <= i < |a| ensures RefsIn(a[i], f) == 0 {
        RefsInside(a, a[i], f);
      }
      RefsNone(a, f, |a|);
      assert (a + ss)[f] in ss;
    }
  }

  lemma AppendInv(a: Image, ss: seq<Sector>)
    requires Inv(a) && forall s :: s in ss ==> New(s)
    ensures Inv(a + ss)
  {
    hide SectorOk;
    hide LinksOk;
    hide New;
    var b := a + ss;
    forall i | 0 <= i < |b| ensures SectorOk(b, b[i]) && (i >= 1 ==> !b[i].Super?) {
      SectorOkAppend(a, ss, i);
    }
    forall f | 0 <= f < |b| ensures LinksOk(b, f) {
      LinksOkAppend(a, ss, f);
    }
  }

  // ---------- linking ----------

  /** A directory after entry `e` was added and its entries were sorted. */
  ghost predicate Entered(was: Inode, now: Inode, e: DirEnt, time: nat) {
    && was.body.Entries? && now.body.Entries? && Dense(was.body) && was.body.numentries < SLOTS
    && var n := was.body.numentries + 1;
    && now == was.(checksum := now.checksum, size := was.size + ENTRY, modified := time, body := now.body)
    && now.body.numentries == n && |now.body.slots| == SLOTS
    && multiset(now.body.slots[..n]) == multiset(Used(was) + [e])
    && InOrder(now.body.slots[..n])
    && now.body.slots[n..] == was.body.slots[n..]
    && now.body.sum == Crc32c(EntriesBytes(now.body.slots[..n]))
    && SumOk(now)
  }

  /** From `a` to `b`, entry `e` is added to the directory at `d`, and its inode has one more link. */
  ghost predicate Link(a: Image, b: Image, d: nat, e: DirEnt, time: nat) {
    && |a| == |b| && d < |a| && IsDir(a[d]) && e.fid < |a| && e.fid != d && a[e.fid].INode?
    && b[d].INode? && Entered(a[d].node, b[d].node, e, time)
    && b[e.fid] == INode(Summed(a[e.fid].node.(numlinks := a[e.fid].node.numlinks + 1)))
    && forall i :: 0 <= i < |a| && i != d && i != e.fid ==> b[i] == a[i]
  }

  /** The name of `e` is not taken, neither by a file nor by a directory. */
  predicate Unused(es: seq<DirEnt>, name: string) {
    forall e :: e in es ==> Stem(e.name) != Stem(name)
  }

  lemma EnteredMembers(was: Inode, now: Inode, e: DirEnt, time: nat, x: DirEnt)
    requires Entered(was, now, e, time)
    ensures x in Used(now) <==> x == e || x in Used(was)
  {
    hide Crc32c;
    hide SumOk;
    assert x in Used(now) <==> x in multiset(Used(now));
    assert x in multiset(Used(was) + [e]) <==> x in Used(was) + [e];
  }

  lemma EnteredDense(was: Inode, now: Inode, e: DirEnt, time: nat)
    requires Entered(was, now, e, time) && e.fid != 0
    ensures Dense(now.body)
  {
    hide Crc32c;
    hide SumOk;
    var n := now.body.numentries;
    forall i | 0 <= i < SLOTS ensures now.body.slots[i].fid != 0 <==> i < n {
      var x := now.body.slots[i];
      if i < n {
        assert x == Used(now)[i];
        EnteredMembers(was, now, e, time, x);
      } else {
        assert x == now.body.slots[n..][i - n] == was.body.slots[i];
      }
    }
  }

  lemma EnteredUnique(was: Inode, now: Inode, e: DirEnt, time: nat)
    requires Entered(was, now, e, time) && Unique(Used(was)) && Unused(Used(was), e.name)
    ensures Unique(Used(now))
  {
    hide Crc32c;
    hide SumOk;
    forall s: string ensures Count(Used(now), Called(s)) <= 1 {
      CountPerm(Used(now), Used(was) + [e], Called(s));
      CountConcat(Used(was), [e], Called(s));
      UniqueCounts(Used(was), Called(s));
      CountNone(Used(was), Called(s));
    }
    CountsUnique(Used(now));
  }

  lemma EnteredCount(was: Inode, now: Inode, e: DirEnt, time: nat, f: nat)
    requires Entered(was, now, e, time)
    ensures Count(Used(now), Fid(f)) == Count(Used(was), Fid(f)) + if e.fid == f then 1 else 0
  {
    hide Crc32c;
    hide SumOk;
    CountPerm(Used(now), Used(was) + [e], Fid(f));
    CountConcat(Used(was), [e], Fid(f));
  }

  lemma EntryOkLinked(a: Image, b: Image, d: nat, e: DirEnt, time: nat, x: DirEnt)
    requires Link(a, b, d, e, time) && EntryOk(a, x)
    ensures EntryOk(b, x)
  {
    hide Crc32c;
    hide SumOk;
  }

  lemma DirOkEntered(b: Image, was: Inode, now: Inode, e: DirEnt, time: nat)
    requires Entered(was, now, e, time) && e.fid != 0 && Unique(Used(was)) && Unused(Used(was), e.name)
    requires was.size == ENTRY * (was.body.numentries + 1) && forall x :: x == e || x in Used(was) ==> EntryOk(b, x)
    ensures DirOk(b, now) && SumOk(now)
  {
    hide Crc32c;
    hide HeaderBytes;
    hide EntryOk;
    EnteredDense(was, now, e, time);
    EnteredUnique(was, now, e, time);
    forall x | x in Used(now) ensures EntryOk(b, x) {
      EnteredMembers(was, now, e, time, x);
    }
  }

  /** A sector whose inode is the same but for its links, its checksum being renewed. */
  lemma RelinkedOk(a: Image, b: Image, s: Sector)
    requires SectorOk(a, s) && s.INode? && forall x :: EntryOk(a, x) ==> EntryOk(b, x)
    ensures SectorOk(b, INode(Summed(s.node.(numlinks := s.node.numlinks + 1))))
  {
    hide Crc32c;
    hide EntryOk;
  }

  lemma SameOk(a: Image, b: Image, s: Sector)
    requires SectorOk(a, s) && forall x :: EntryOk(a, x) ==> EntryOk(b, x)
    ensures SectorOk(b, s)
  {
    hide Crc32c;
    hide HeaderBytes;
    hide EntryOk;
  }

  lemma EntriesStayOk(a: Image, b: Image, d: nat, e: DirEnt, time: nat)
    requires Link(a, b, d, e, time)
    ensures forall x :: EntryOk(a, x) ==> EntryOk(b, x)
  {
    hide Link;
    hide EntryOk;
    forall x | EntryOk(a, x) ensures EntryOk(b, x) {
      EntryOkLinked(a, b, d, e, time, x);
    }
  }

  lemma LinkedDirOk(a: Image, b: Image, d: nat, e: DirEnt, time: nat)
    requires d < |a| && SectorOk(a, a[d]) && Link(a, b, d, e, time) && EntryOk(a, e) && Unused(Used(a[d].node), e.name)
    ensures SectorOk(b, b[d])
  {
    hide Crc32c;
    hide HeaderBytes;
    assert e.fid != 0;
    EntriesStayOk(a, b, d, e, time);
    hide EntryOk;
    DirOkEntered(b, a[d].node, b[d].node, e, time);
  }

  lemma SectorOkLinked(a: Image, b: Image, d: nat, e: DirEnt, time: nat, i: nat)
    requires i < |a| && d < |a| && SectorOk(a, a[d]) && SectorOk(a, a[i])
    requires Link(a, b, d, e, time) && EntryOk(a, e) && Unused(Used(a[d].node), e.name)
    ensures SectorOk(b, b[i])
  {
    hide SectorOk;
    hide Summed;
    hide EntryOk;
    hide Entered;
    if i == d {
      LinkedDirOk(a, b, d, e, time);
    } else {
      EntriesStayOk(a, b, d, e, time);
      if i == e.fid {
        RelinkedOk(a, b, a[i]);
      } else {
        SameOk(a, b, a[i]);
      }
    }
  }

  lemma RefsInLinked(a: Image, b: Image, d: nat, e: DirEnt, time: nat, f: nat, i: nat)
    requires Link(a, b, d, e, time) && i < |a|
    ensures RefsIn(b[i], f) == RefsIn(a[i], f) + if i == d && e.fid == f then 1 else 0
  {
    hide Crc32c;
    hide HeaderBytes;
    hide Count;
    if i == d {
      EnteredCount(a[d].node, b[d].node, e, time, f);
    }
  }

  lemma {:induction false} RefsLinked(a: Image, b: Image, d: nat, e: DirEnt, time: nat, f: nat, n: nat)
    requires Link(a, b, d, e, time) && n <= |a| == |b|
    ensures Refs(b, f, n) == Refs(a, f, n) + if d < n && e.fid == f then 1 else 0
    decreases n
  {
    hide Link;
    hide RefsIn;
    if n > 0 {
      RefsLinked(a, b, d, e, time, f, n - 1);
      RefsInLinked(a, b, d, e, time, f, n - 1);
    }
  }

  lemma LinkInv(a: Image, b: Image, d: nat, e: DirEnt, time: nat)
    requires Inv(a) && Link(a, b, d, e, time) && EntryOk(a, e) && Unused(Used(a[d].node), e.name)
    ensures Inv(b)
  {
    hide SectorOk;
    hide Crc32c;
    hide HeaderBytes;
    hide Refs;
    hide EntryOk;
    forall i | 0 <= i < |b| ensures SectorOk(b, b[i]) {
      SectorOkLinked(a, b, d, e, time, i);
    }
    forall f | 0 <= f < |b| ensures LinksOk(b, f) {
      RefsLinked(a, b, d, e, time, f, |a|);
      assert LinksOk(a, f);
    }
  }
}
