/** Numbers and records as bytes: little endian numbers, and a record made by writing its fields into zeros. */
module FszBytes {
  import opened Crc

  function Zeroed(n: nat): (s: seq<Byte>)
    ensures |s| == n
  {
    seq(n, i => 0)
  }

  /** A byte, bit by bit. */
  function OfBits(a: bool, b: bool, c: bool, d: bool, e: bool, f: bool, g: bool, h: bool): Byte {
    (if a then 1 else 0) | (if b then 2 else 0) | (if c then 4 else 0) | (if d then 8 else 0)
    | (if e then 16 else 0) | (if f then 32 else 0) | (if g then 64 else 0) | (if h then 128 else 0)
  }

  /** Bit `2 ^ k` of a number, given that power. */
  predicate BitOf(v: nat, power: nat)
    requires power > 0
  {
    v / power % 2 == 1
  }

  /** The lowest eight bits of a number. */
  function ByteOf(v: nat): Byte {
    OfBits(BitOf(v, 1), BitOf(v, 2), BitOf(v, 4), BitOf(v, 8), BitOf(v, 16), BitOf(v, 32), BitOf(v, 64), BitOf(v, 128))
  }

  /** `n` bytes of a number, least significant first. */
  function Little(v: nat, n: nat): (s: seq<Byte>)
    ensures |s| == n
    decreases n
  {
    if n == 0 then [] else [ByteOf(v)] + Little(v / 256, n - 1)
  }

  // ---------- back to numbers ----------

  function FromBit(b: Byte, mask: Byte, power: nat): nat {
    if b & mask != 0 then power else 0
  }

  /** The number that a byte stands for. */
  function FromByte(b: Byte): nat {
    FromBit(b, 1, 1) + FromBit(b, 2, 2) + FromBit(b, 4, 4) + FromBit(b, 8, 8)
    + FromBit(b, 16, 16) + FromBit(b, 32, 32) + FromBit(b, 64, 64) + FromBit(b, 128, 128)
  }

  /** The number that bytes spell, least significant first. */
  function Number(s: seq<Byte>): nat {
    if s == [] then 0 else FromByte(s[0]) + 256 * Number(s[1..])
  }

  function Power(n: nat): (p: nat)
    ensures p > 0
  {
    if n == 0 then 1 else 256 * Power(n - 1)
  }

  /** Dividing by a byte first. */
  lemma Carry(v: nat, p: nat)
    requires p > 0
    ensures v % (256 * p) == v % 256 + 256 * (v / 256 % p)
  {
    var w := v / 256;
    var q, r := w / p, w % p;
    var m := 256 * p;
    assert v == 256 * w + v % 256 && w == q * p + r;
    assert v == q * m + (256 * r + v % 256) by {
      assert 256 * (q * p) == q * (256 * p);
    }
    Modulus(v, m, q, 256 * r + v % 256);
  }

  lemma Modulus(v: nat, m: nat, q: nat, r: nat)
    requires r < m && v == q * m + r
    ensures v % m == r && v / m == q
  {
    var d, t := v / m, v % m;
    assert v == d * m + t;
    assert d == q by {
      Quotients(m, d, t, q, r);
    }
  }

  lemma Quotients(m: nat, d: nat, t: nat, q: nat, r: nat)
    requires t < m && r < m && d * m + t == q * m + r
    ensures d == q
  {
    Multiples(m, d, q);
    Multiples(m, q, d);
  }

  lemma {:induction false} Multiples(m: nat, x: nat, y: nat)
    ensures x < y ==> x * m + m <= y * m
  {
    if x + 1 < y {
      Multiples(m, x, y - 1);
    }
  }

  /** Bytes of a number spell it again, but for what does not fit. */
  lemma {:induction false} LittleNumber(v: nat, n: nat)
    ensures Number(Little(v, n)) == v % Power(n)
    decreases n
  {
    if n > 0 {
      LittleNumber(v / 256, n - 1);
      var rest, s := Little(v / 256, n - 1), Little(v, n);
      ByteNumber(v);
      hide FromByte;
      hide ByteOf;
      assert s[0] == ByteOf(v) && s[1..] == rest;
      Carry(v, Power(n - 1));
    }
  }

  /** A number without its lowest `k` bytes. */
  function Above(v: nat, k: nat): nat
    decreases k
  {
    if k == 0 then v else Above(v / 256, k - 1)
  }

  /** The first `k` of `n` bytes are those of the low part, the others those of the high part. */
  lemma {:induction false} LittleSplit(v: nat, n: nat, k: nat)
    requires k <= n
    ensures Little(v, n) == Little(v, k) + Little(Above(v, k), n - k)
    decreases k
  {
    hide ByteOf;
    if k > 0 {
      LittleSplit(v / 256, n - 1, k - 1);
    }
  }

  lemma BitsKept(a: bool, b: bool, c: bool, d: bool, e: bool, f: bool, g: bool, h: bool)
    ensures var x := OfBits(a, b, c, d, e, f, g, h);
            && (x & 1 != 0 <==> a) && (x & 2 != 0 <==> b) && (x & 4 != 0 <==> c) && (x & 8 != 0 <==> d)
            && (x & 16 != 0 <==> e) && (x & 32 != 0 <==> f) && (x & 64 != 0 <==> g) && (x & 128 != 0 <==> h)
  {
  }

  function Weight(v: nat, power: nat): nat
    requires power > 0
  {
    if BitOf(v, power) then power else 0
  }

  lemma Halves(v: nat)
    ensures v / 1 == v && v / 4 == v / 2 / 2 && v / 8 == v / 4 / 2 && v / 16 == v / 8 / 2
  {
  }

  lemma Rest16(v: nat, q: nat, r: nat)
    requires v == 16 * q + r && r < 16
    ensures v % 16 == r && v / 16 == q
  {
  }

  /** Half a byte. */
  lemma NibbleAddsUp(v: nat)
    ensures v % 16 == Weight(v, 1) + Weight(v, 2) + Weight(v, 4) + Weight(v, 8)
  {
    Halves(v);
    var h, q, e, s := v / 2, v / 4, v / 8, v / 16;
    assert v == 2 * h + Weight(v, 1);
    assert 2 * h == 4 * q + Weight(v, 2);
    assert 4 * q == 8 * e + Weight(v, 4);
    assert 8 * e == 16 * s + Weight(v, 8);
    Rest16(v, s, Weight(v, 1) + Weight(v, 2) + Weight(v, 4) + Weight(v, 8));
  }

  lemma Shifted(v: nat)
    ensures Weight(v, 16) == 16 * Weight(v / 16, 1) && Weight(v, 32) == 16 * Weight(v / 16, 2)
    ensures Weight(v, 64) == 16 * Weight(v / 16, 4) && Weight(v, 128) == 16 * Weight(v / 16, 8)
  {
    var w := v / 16;
    assert v / 32 == w / 2 && v / 64 == w / 4 && v / 128 == w / 8;
  }

  lemma BitsAddUp(v: nat)
    ensures v % 256 == Weight(v, 1) + Weight(v, 2) + Weight(v, 4) + Weight(v, 8) + Weight(v, 16) + Weight(v, 32)
                       + Weight(v, 64) + Weight(v, 128)
  {
    hide Weight;
    NibbleAddsUp(v);
    NibbleAddsUp(v / 16);
    Shifted(v);
    TwoNibbles(v);
  }

  lemma Rest256(v: nat, q: nat, r: nat)
    requires v == 256 * q + r && r < 256
    ensures v % 256 == r
  {
  }

  lemma TwoNibbles(v: nat)
    ensures v % 256 == v % 16 + 16 * (v / 16 % 16)
  {
    var w := v / 16;
    assert v == 16 * w + v % 16 && w == 16 * (w / 16) + w % 16;
    Rest256(v, w / 16, v % 16 + 16 * (w % 16));
  }

  lemma BitWeight(b: Byte, mask: Byte, v: nat, power: nat)
    requires power > 0 && (b & mask != 0 <==> BitOf(v, power))
    ensures FromBit(b, mask, power) == Weight(v, power)
  {
  }

  lemma ByteNumber(v: nat)
    ensures FromByte(ByteOf(v)) == v % 256
  {
    hide OfBits;
    hide BitOf;
    var a, b, c, d := BitOf(v, 1), BitOf(v, 2), BitOf(v, 4), BitOf(v, 8);
    var e, f, g, h := BitOf(v, 16), BitOf(v, 32), BitOf(v, 64), BitOf(v, 128);
    BitsKept(a, b, c, d, e, f, g, h);
    BitsAddUp(v);
    hide FromBit;
    hide Weight;
    var x := ByteOf(v);
    BitWeight(x, 1, v, 1);
    BitWeight(x, 2, v, 2);
    BitWeight(x, 4, v, 4);
    BitWeight(x, 8, v, 8);
    BitWeight(x, 16, v, 16);
    BitWeight(x, 32, v, 32);
    BitWeight(x, 64, v, 64);
    BitWeight(x, 128, v, 128);
  }

  lemma SameByte(a: Byte, b: Byte)
    requires FromByte(a) == FromByte(b)
    ensures a == b
  {
  }

  lemma ByteRange(b: Byte)
    ensures FromByte(b) < 256
  {
  }

  lemma SameParts(a: nat, b: nat, c: nat, d: nat)
    requires a < 256 && c < 256 && a + 256 * b == c + 256 * d
    ensures a == c && b == d
  {
  }

  /** Bytes of the same number are the same. */
  lemma {:induction false} NumberDecides(s: seq<Byte>, t: seq<Byte>)
    requires |s| == |t| && Number(s) == Number(t)
    ensures s == t
  {
    if s != [] {
      hide FromByte;
      ByteRange(s[0]);
      ByteRange(t[0]);
      SameParts(FromByte(s[0]), Number(s[1..]), FromByte(t[0]), Number(t[1..]));
      NumberDecides(s[1..], t[1..]);
      SameByte(s[0], t[0]);
      assert s == [s[0]] + s[1..] && t == [t[0]] + t[1..];
    }
  }

  // ---------- writing at a place ----------

  /** `raw` with `bytes` written at `at`. */
  function Put(raw: seq<Byte>, at: nat, bytes: seq<Byte>): (r: seq<Byte>)
    requires at + |bytes| <= |raw|
    ensures |r| == |raw|
  {
    raw[..at] + bytes + raw[at + |bytes|..]
  }

  lemma PutThere(raw: seq<Byte>, at: nat, bytes: seq<Byte>)
    requires at + |bytes| <= |raw|
    ensures var r := Put(raw, at, bytes);
            r[at..at + |bytes|] == bytes && r[..at] == raw[..at] && r[at + |bytes|..] == raw[at + |bytes|..]
  {
  }

  lemma PutElsewhere(raw: seq<Byte>, at: nat, bytes: seq<Byte>, x: nat)
    requires at + |bytes| <= |raw| && x < |raw| && (x < at || at + |bytes| <= x)
    ensures Put(raw, at, bytes)[x] == raw[x]
  {
  }

  lemma PutApart(raw: seq<Byte>, at: nat, bytes: seq<Byte>, i: nat, j: nat)
    requires at + |bytes| <= |raw| && i <= j <= |raw| && (j <= at || at + |bytes| <= i)
    ensures Put(raw, at, bytes)[i..j] == raw[i..j]
  {
  }

  // ---------- records ----------

  /** The bytes of a field, and where it is in its record. */
  datatype Field = Field(at: nat, bytes: seq<Byte>)

  function After(f: Field): nat {
    f.at + |f.bytes|
  }

  ghost predicate Apart(f: Field, g: Field) {
    After(f) <= g.at || After(g) <= f.at
  }

  predicate Fit(fs: seq<Field>, n: nat) {
    forall i :: 0 <= i < |fs| ==> After(fs[i]) <= n
  }

  /** The fields fit into `n` bytes and do not overlap. */
  ghost predicate Fields(fs: seq<Field>, n: nat) {
    Fit(fs, n) && forall i, j :: 0 <= i < j < |fs| ==> Apart(fs[i], fs[j])
  }

  /** All fields are written into `raw`, one after the other. */
  function PutAll(raw: seq<Byte>, fs: seq<Field>): (r: seq<Byte>)
    requires Fit(fs, |raw|)
    ensures |r| == |raw|
  {
    if fs == [] then raw else Put(PutAll(raw, fs[..|fs| - 1]), fs[|fs| - 1].at, fs[|fs| - 1].bytes)
  }

  /** Every field can be read back from the record. */
  lemma {:induction false} FieldKept(raw: seq<Byte>, fs: seq<Field>, k: nat)
    requires Fields(fs, |raw|) && k < |fs|
    ensures PutAll(raw, fs)[fs[k].at..After(fs[k])] == fs[k].bytes
  {
    var es, f := fs[..|fs| - 1], fs[|fs| - 1];
    assert Fields(es, |raw|);
    if k < |es| {
      FieldKept(raw, es, k);
      assert Apart(fs[k], f) && es[k] == fs[k];
      PutApart(PutAll(raw, es), f.at, f.bytes, fs[k].at, After(fs[k]));
    } else {
      PutThere(PutAll(raw, es), f.at, f.bytes);
    }
  }

  /** What belongs to no field stays as it was. */
  lemma {:induction false} RestKept(raw: seq<Byte>, fs: seq<Field>, x: nat)
    requires Fields(fs, |raw|) && x < |raw| && forall i :: 0 <= i < |fs| ==> x < fs[i].at || After(fs[i]) <= x
    ensures PutAll(raw, fs)[x] == raw[x]
  {
    if fs != [] {
      var es, f := fs[..|fs| - 1], fs[|fs| - 1];
      RestKept(raw, es, x);
      PutElsewhere(PutAll(raw, es), f.at, f.bytes, x);
    }
  }

  /** The same places, and the same bytes except in field `k`. */
  ghost predicate Alike(fs: seq<Field>, gs: seq<Field>, k: nat) {
    && |gs| == |fs| && k < |fs| && gs[k].at == fs[k].at && |gs[k].bytes| == |fs[k].bytes|
    && forall i :: 0 <= i < |fs| && i != k ==> gs[i] == fs[i]
  }

  /** Records that differ in one field are the same elsewhere. */
  lemma {:induction false} OneFieldDiffers(raw: seq<Byte>, fs: seq<Field>, gs: seq<Field>, k: nat, x: nat)
    requires Fit(fs, |raw|) && Fit(gs, |raw|) && Alike(fs, gs, k)
    requires x < |raw| && (x < fs[k].at || After(fs[k]) <= x)
    ensures PutAll(raw, gs)[x] == PutAll(raw, fs)[x]
  {
    hide Fit;
    hide Put;
    hide PutAll;
    var n := |fs| - 1;
    PutAllStep(raw, fs);
    PutAllStep(raw, gs);
    if k < n {
      AlikeLess(fs, gs, k);
      hide Alike;
      OneFieldDiffers(raw, fs[..n], gs[..n], k, x);
      PutSame(PutAll(raw, fs[..n]), PutAll(raw, gs[..n]), fs[n].at, fs[n].bytes, x);
    } else {
      AlikeLast(fs, gs);
      PutElsewhere(PutAll(raw, fs[..n]), fs[n].at, fs[n].bytes, x);
      PutElsewhere(PutAll(raw, gs[..n]), gs[n].at, gs[n].bytes, x);
    }
  }

  lemma PutAllStep(raw: seq<Byte>, fs: seq<Field>)
    requires Fit(fs, |raw|) && fs != []
    ensures var n := |fs| - 1;
            && Fit(fs[..n], |raw|) && After(fs[n]) <= |raw|
            && PutAll(raw, fs) == Put(PutAll(raw, fs[..n]), fs[n].at, fs[n].bytes)
  {
  }

  lemma AlikeLess(fs: seq<Field>, gs: seq<Field>, k: nat)
    requires Alike(fs, gs, k) && k < |fs| - 1
    ensures Alike(fs[..|fs| - 1], gs[..|fs| - 1], k) && gs[|fs| - 1] == fs[|fs| - 1]
  {
  }

  lemma AlikeLast(fs: seq<Field>, gs: seq<Field>)
    requires fs != [] && Alike(fs, gs, |fs| - 1)
    ensures gs[..|fs| - 1] == fs[..|fs| - 1]
  {
  }

  lemma PutSame(a: seq<Byte>, b: seq<Byte>, at: nat, bytes: seq<Byte>, x: nat)
    requires at + |bytes| <= |a| == |b| && x < |a| && a[x] == b[x]
    ensures Put(a, at, bytes)[x] == Put(b, at, bytes)[x]
  {
  }
}
