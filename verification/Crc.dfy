/** `crc32_calc` and `eficrc32_calc`: one table lookup a byte, against division of the message's bits.
    The sources keep the checksum in a wider word whose upper half stays zero; here it is 32 bits. */
module Crc {
  import opened CrcTables

  type Byte = bv8

  /** One step of the shift register. */
  function Step(c: bv32, p: bv32): bv32 {
    if Odd(c) then Xor(Half(c), p) else Half(c)
  }

  function Four(c: bv32, p: bv32): bv32 {
    Step(Step(Step(Step(c, p), p), p), p)
  }

  function Eight(c: bv32, p: bv32): bv32 {
    Four(Four(c, p), p)
  }

  predicate Odd(c: bv32) {
    c & 1 == 1
  }

  function Half(c: bv32): bv32 {
    c >> 1
  }

  lemma HalfXor(a: bv32, b: bv32)
    ensures Half(Xor(a, b)) == Xor(Half(a), Half(b)) && (Odd(Xor(a, b)) <==> Odd(a) != Odd(b))
  {
  }

  lemma XorAssociates(a: bv32, b: bv32, p: bv32)
    ensures Xor(Xor(a, b), p) == Xor(a, Xor(b, p))
  {
  }

  lemma XorCommutes(a: bv32, b: bv32)
    ensures Xor(a, b) == Xor(b, a)
  {
  }

  lemma XorSelf(a: bv32)
    ensures Xor(a, a) == 0 && Xor(a, 0) == a
  {
  }

  lemma StepXor(a: bv32, b: bv32, p: bv32)
    ensures Step(Xor(a, b), p) == Xor(Step(a, p), Step(b, p))
  {
    hide Xor;
    hide Odd;
    hide Half;
    HalfXor(a, b);
    var x, y := Half(a), Half(b);
    XorAssociates(x, y, p);
    XorAssociates(x, p, y);
    XorCommutes(y, p);
    XorAssociates(x, p, Xor(y, p));
    XorAssociates(p, p, y);
    XorSelf(p);
    XorCommutes(0, y);
    XorSelf(y);
  }

  lemma FourXor(a: bv32, b: bv32, p: bv32)
    ensures Four(Xor(a, b), p) == Xor(Four(a, p), Four(b, p))
  {
    hide Step;
    hide Xor;
    var a1, b1 := Step(a, p), Step(b, p);
    StepXor(a, b, p);
    var a2, b2 := Step(a1, p), Step(b1, p);
    StepXor(a1, b1, p);
    var a3, b3 := Step(a2, p), Step(b2, p);
    StepXor(a2, b2, p);
    StepXor(a3, b3, p);
  }

  lemma EightXor(a: bv32, b: bv32, p: bv32)
    ensures Eight(Xor(a, b), p) == Xor(Eight(a, p), Eight(b, p))
  {
    hide Four;
    hide Xor;
    FourXor(a, b, p);
    FourXor(Four(a, p), Four(b, p), p);
  }

  lemma LowBits(k: Kind, j: bv8)
    requires j < 8
    ensures Row(k, 0, 0)[j as nat] == Eight(j as bv32, Poly(k))
  {
    if j == 0 {
    } else if j == 1 {
    } else if j == 2 {
    } else if j == 3 {
    } else if j == 4 {
    } else if j == 5 {
    } else if j == 6 {
    } else {
    }
  }

  lemma MiddleBits(k: Kind, s: bv8)
    requires s < 8
    ensures Row(k, 0, s)[0] == Eight(s as bv32 << 3, Poly(k))
  {
    if s == 0 {
    } else if s == 1 {
    } else if s == 2 {
    } else if s == 3 {
    } else if s == 4 {
    } else if s == 5 {
    } else if s == 6 {
    } else {
    }
  }

  lemma HighBits(k: Kind, q: bv8)
    requires q < 4
    ensures Row(k, q, 0)[0] == Eight(q as bv32 << 6, Poly(k))
  {
    if q == 0 {
    } else if q == 1 {
    } else if q == 2 {
    } else {
    }
  }

  /** Every entry is what eight steps make of its position. */
  lemma EntryIsEight(k: Kind, x: bv8)
    ensures Lookup(k, x) == Eight(x as bv32, Poly(k))
  {
    hide Xor;
    hide Eight;
    hide Row;
    var q, r, j := x >> 6, (x >> 3) & 7, x & 7;
    Parts(k, q, r, j as nat);
    HighBits(k, q);
    MiddleBits(k, r);
    LowBits(k, j);
    Pieces(x);
    var a, b, c := q as bv32 << 6, r as bv32 << 3, j as bv32;
    EightXor(a, b, Poly(k));
    EightXor(Xor(a, b), c, Poly(k));
  }

  lemma Pieces(x: bv8)
    ensures x as bv32 == Xor(Xor((x >> 6) as bv32 << 6, ((x >> 3) & 7) as bv32 << 3), (x & 7) as bv32)
  {
  }

  /** The position that is looked up. */
  function Index(c: bv32, b: Byte): Byte {
    (c & 0xFF) as Byte ^ b
  }

  function Shift8(c: bv32): bv32 {
    c >> 8
  }

  function High(c: bv32): bv32 {
    c & 0xFFFFFF00
  }

  /** What one byte does to the checksum. */
  function Update(k: Kind, c: bv32, b: Byte): bv32 {
    Xor(Shift8(c), Lookup(k, Index(c, b)))
  }

  lemma NoFeedback(h: bv32, p: bv32)
    requires h & 0xF == 0
    ensures Four(h, p) == h >> 4
  {
    assert !Odd(h) && Half(h) & 7 == 0;
    assert !Odd(Half(h)) && Half(Half(h)) & 3 == 0;
    assert !Odd(Half(Half(h))) && Half(Half(Half(h))) & 1 == 0;
  }

  lemma ShiftOut(c: bv32, p: bv32)
    ensures Eight(High(c), p) == Shift8(c)
  {
    hide Four;
    NoFeedback(High(c), p);
    NoFeedback(High(c) >> 4, p);
  }

  lemma TwoParts(c: bv32)
    ensures c == Xor(High(c), c & 0xFF)
  {
  }

  lemma IndexIs(c: bv32, b: Byte)
    ensures Index(c, b) as bv32 == Xor(c & 0xFF, b as bv32)
  {
  }

  lemma LowByte(c: bv32, b: Byte)
    ensures Xor(c, b as bv32) == Xor(High(c), Index(c, b) as bv32)
  {
    hide Xor;
    hide Index;
    hide High;
    TwoParts(c);
    IndexIs(c, b);
    XorAssociates(High(c), c & 0xFF, b as bv32);
  }

  /** A lookup does eight steps at once. */
  lemma UpdateIsEight(k: Kind, c: bv32, b: Byte)
    ensures Update(k, c, b) == Eight(Xor(c, b as bv32), Poly(k))
  {
    hide *;
    LookupFirst(k, c, b);
    EntryIsEight(k, Index(c, b));
    LowByte(c, b);
    EightXor(High(c), Index(c, b) as bv32, Poly(k));
    ShiftOut(c, Poly(k));
  }

  lemma LookupFirst(k: Kind, c: bv32, b: Byte)
    ensures Update(k, c, b) == Xor(Shift8(c), Lookup(k, Index(c, b)))
  {
    hide Index;
    hide Shift8;
    hide Lookup;
    hide Xor;
  }

  /** The lowest `n` bits, least significant first: the order in which a reflected checksum takes them. */
  function Bits(v: bv32, n: nat): (s: seq<bool>)
    ensures |s| == n
  {
    if n == 0 then [] else [Odd(v)] + Bits(Half(v), n - 1)
  }

  function MessageBits(m: seq<Byte>): (s: seq<bool>)
    ensures |s| == 8 * |m|
  {
    if m == [] then [] else Bits(m[0] as bv32, 8) + MessageBits(m[1..])
  }

  function Unit(bit: bool): bv32 {
    if bit then 1 else 0
  }

  /** Bit by bit: each one is combined with the lowest bit of the register, which is then stepped. */
  function Feed(c: bv32, m: seq<bool>, p: bv32): bv32
    decreases |m|
  {
    if m == [] then c else Feed(Step(Xor(c, Unit(m[0])), p), m[1..], p)
  }

  lemma {:induction false} FeedConcat(c: bv32, a: seq<bool>, b: seq<bool>, p: bv32)
    ensures Feed(c, a + b, p) == Feed(Feed(c, a, p), b, p)
    decreases |a|
  {
    hide Step;
    hide Xor;
    if a == [] {
      assert a + b == b;
    } else {
      assert (a + b)[1..] == a[1..] + b;
      FeedConcat(Step(Xor(c, Unit(a[0])), p), a[1..], b, p);
    }
  }

  function Steps(c: bv32, n: nat, p: bv32): bv32
    decreases n
  {
    if n == 0 then c else Steps(Step(c, p), n - 1, p)
  }

  function Shift(v: bv32, n: nat): bv32 {
    if n == 0 then v else Shift(Half(v), n - 1)
  }

  lemma StepWord(c: bv32, v: bv32, p: bv32)
    ensures Step(Xor(c, v), p) == Xor(Step(Xor(c, Unit(Odd(v))), p), Half(v))
  {
    var w, u := Unit(Odd(v)), v & 0xFFFFFFFE;
    assert v == Xor(w, u) && !Odd(u) && Half(u) == Half(v);
    hide Step;
    hide Xor;
    XorAssociates(c, w, u);
    StepXor(Xor(c, w), u, p);
    assert Step(u, p) == Half(u);
  }

  /** A whole word combined at once, or its bits one by one. */
  lemma {:induction false} WordIsBits(c: bv32, v: bv32, n: nat, p: bv32)
    ensures Steps(Xor(c, v), n, p) == Xor(Feed(c, Bits(v, n), p), Shift(v, n))
    decreases n
  {
    hide Step;
    hide Xor;
    hide Odd;
    hide Half;
    if n > 0 {
      StepWord(c, v, p);
      WordIsBits(Step(Xor(c, Unit(Odd(v))), p), Half(v), n - 1, p);
      assert Bits(v, n)[1..] == Bits(Half(v), n - 1);
    }
  }

  lemma UpdateIsBits(k: Kind, c: bv32, b: Byte)
    ensures Update(k, c, b) == Feed(c, Bits(b as bv32, 8), Poly(k))
  {
    hide Update;
    hide Feed;
    UpdateIsEight(k, c, b);
    WordIsBits(c, b as bv32, 8, Poly(k));
    EightIsSteps(Xor(c, b as bv32), Poly(k));
    ByteShift(b);
    XorSelf(Feed(c, Bits(b as bv32, 8), Poly(k)));
  }

  lemma EightIsSteps(c: bv32, p: bv32)
    ensures Steps(c, 8, p) == Eight(c, p)
  {
    hide Step;
    StepsFour(c, 4, p);
    StepsFour(Four(c, p), 0, p);
  }

  lemma StepsFour(c: bv32, n: nat, p: bv32)
    ensures Steps(c, n + 4, p) == Steps(Four(c, p), n, p)
  {
    hide Step;
    var d := Step(Step(c, p), p);
    assert Steps(c, n + 4, p) == Steps(d, n + 2, p);
  }

  lemma ByteShift(b: Byte)
    ensures Shift(b as bv32, 8) == 0
  {
    var v := b as bv32;
    ShiftFour(v, 4);
    ShiftFour(Half(Half(Half(Half(v)))), 0);
  }

  lemma ShiftFour(v: bv32, n: nat)
    ensures Shift(v, n + 4) == Shift(Half(Half(Half(Half(v)))), n)
  {
    hide Half;
    assert Shift(v, n + 4) == Shift(Half(Half(v)), n + 2);
  }

  lemma {:induction false} MessageBitsSnoc(m: seq<Byte>, b: Byte)
    ensures MessageBits(m + [b]) == MessageBits(m) + Bits(b as bv32, 8)
  {
    hide Bits;
    if m == [] {
      assert MessageBits([b]) == Bits(b as bv32, 8) + MessageBits([]);
      assert m + [b] == [b];
    } else {
      assert (m + [b])[1..] == m[1..] + [b];
      MessageBitsSnoc(m[1..], b);
    }
  }

  lemma FeedByte(k: Kind, c: bv32, m: seq<Byte>, b: Byte)
    ensures Feed(c, MessageBits(m + [b]), Poly(k)) == Update(k, Feed(c, MessageBits(m), Poly(k)), b)
  {
    hide *;
    MessageBitsSnoc(m, b);
    FeedConcat(c, MessageBits(m), Bits(b as bv32, 8), Poly(k));
    UpdateIsBits(k, Feed(c, MessageBits(m), Poly(k)), b);
  }

  lemma FeedNone(c: bv32, p: bv32)
    ensures Feed(c, MessageBits([]), p) == c
  {
  }

  lemma FeedAll(k: Kind, c: bv32, m: seq<Byte>)
    ensures Feed(c, MessageBits(m[..|m|]), Poly(k)) == Feed(c, MessageBits(m), Poly(k))
  {
    hide *;
    assert m[..|m|] == m;
  }

  lemma FeedNext(k: Kind, c: bv32, m: seq<Byte>, i: nat)
    requires i < |m|
    ensures Feed(c, MessageBits(m[..i + 1]), Poly(k)) == Update(k, Feed(c, MessageBits(m[..i]), Poly(k)), m[i])
  {
    hide *;
    assert m[..i + 1] == m[..i] + [m[i]];
    FeedByte(k, c, m[..i], m[i]);
  }

  /** `crc32_calc`. */
  method Calculate(m: seq<Byte>) returns (crc: bv32)
    ensures crc == Feed(0, MessageBits(m), 0x82F63B78)
  {
    hide Feed;
    hide MessageBits;
    hide Update;
    crc := 0;
    FeedNone(0, Poly(Castagnoli));
    var i := 0;
    while i < |m|
      invariant 0 <= i <= |m|
      invariant crc == Feed(0, MessageBits(m[..i]), Poly(Castagnoli))
    {
      FeedNext(Castagnoli, 0, m, i);
      crc := Update(Castagnoli, crc, m[i]);
      i := i + 1;
    }
    FeedAll(Castagnoli, 0, m);
  }

  /** `eficrc32_calc`. */
  method CalculateEfi(m: seq<Byte>) returns (crc: bv32)
    ensures crc == Feed(0xFFFFFFFF, MessageBits(m), 0xEDB88320) ^ 0xFFFFFFFF
  {
    hide Feed;
    hide MessageBits;
    hide Update;
    crc := 0xFFFFFFFF;
    FeedNone(0xFFFFFFFF, Poly(Ansi));
    var i := 0;
    while i < |m|
      invariant 0 <= i <= |m|
      invariant crc == Feed(0xFFFFFFFF, MessageBits(m[..i]), Poly(Ansi))
    {
      FeedNext(Ansi, 0xFFFFFFFF, m, i);
      crc := Update(Ansi, crc, m[i]);
      i := i + 1;
    }
    FeedAll(Ansi, 0xFFFFFFFF, m);
    crc := crc ^ 0xFFFFFFFF;
  }

  // ---------- polynomial division ----------

  function XorSeq(a: seq<bool>, b: seq<bool>): (r: seq<bool>)
    requires |a| == |b|
    ensures |r| == |a|
  {
    seq(|a|, i requires 0 <= i < |a| => a[i] != b[i])
  }

  /** Remainder of a polynomial over GF(2), coefficients from the highest power down, divided by
      `x^32` plus the polynomial with coefficients `p`: school division, one subtraction a power. */
  function Remainder(d: seq<bool>, p: seq<bool>): (r: seq<bool>)
    requires |p| == 32
    ensures |d| >= 32 ==> |r| == 32
    decreases |d|
  {
    if |d| <= 32 then d
    else if d[0] then Remainder(XorSeq(d[1..33], p) + d[33..], p)
    else Remainder(d[1..], p)
  }

  /** `d` with `s` added to its first coefficients. */
  function Onto(s: seq<bool>, d: seq<bool>): (r: seq<bool>)
    requires |s| <= |d|
    ensures |r| == |d|
  {
    XorSeq(s, d[..|s|]) + d[|s|..]
  }

  function Zeros(n: nat): (s: seq<bool>)
    ensures |s| == n
  {
    seq(n, i => false)
  }

  lemma {:induction false} BitsXor(a: bv32, b: bv32, n: nat)
    ensures Bits(Xor(a, b), n) == XorSeq(Bits(a, n), Bits(b, n))
    decreases n
  {
    hide Xor;
    hide Odd;
    hide Half;
    if n > 0 {
      HalfXor(a, b);
      BitsXor(Half(a), Half(b), n - 1);
    }
  }

  lemma {:induction false} BitsZero(n: nat)
    ensures Bits(0, n) == Zeros(n)
  {
    if n > 0 {
      assert Half(0) == 0 && !Odd(0);
      BitsZero(n - 1);
    }
  }

  /** Stepping moves every bit one place down. */
  lemma {:induction false} BitsLonger(v: bv32, n: nat)
    ensures Bits(v, n + 1) == Bits(v, n) + [Odd(Shift(v, n))]
    decreases n
  {
    hide Odd;
    hide Half;
    if n > 0 {
      BitsLonger(Half(v), n - 1);
      BitsFirst(v, n);
      BitsFirst(v, n + 1);
      assert Shift(v, n) == Shift(Half(v), n - 1);
      hide Bits;
      hide Shift;
    }
  }

  lemma BitsFirst(v: bv32, n: nat)
    requires n > 0
    ensures Bits(v, n) == [Odd(v)] + Bits(Half(v), n - 1)
  {
    hide Odd;
    hide Half;
  }

  predicate Within(a: bv32, b: bv32) {
    a & b == a
  }

  lemma HalfWithin(a: bv32, b: bv32)
    requires Within(a, b)
    ensures Within(Half(a), Half(b))
  {
  }

  lemma {:induction false} ShiftWithin(a: bv32, b: bv32, n: nat)
    requires Within(a, b)
    ensures Within(Shift(a, n), Shift(b, n))
    decreases n
  {
    hide Within;
    hide Half;
    if n > 0 {
      HalfWithin(a, b);
      ShiftWithin(Half(a), Half(b), n - 1);
    }
  }

  lemma ShiftHex(v: bv32, n: nat)
    ensures Shift(v, n + 4) == Shift(v >> 4, n)
  {
    hide Shift;
    hide Half;
    ShiftFour(v, n);
    HalfFour(v);
  }

  lemma HalfFour(v: bv32)
    ensures Half(Half(Half(Half(v)))) == v >> 4
  {
  }

  lemma ShiftNone()
    ensures Shift(0, 0) == 0
  {
  }

  lemma ShiftThree()
    ensures Shift(8, 3) == 1 && Shift(7, 3) == 0
  {
  }

  lemma MaskShifted()
    ensures Shift(0xFFFFFFFF, 32) == 0
  {
    hide Shift;
    ShiftHex(0xFFFFFFFF, 28);
    ShiftHex(0xFFFFFFF, 24);
    ShiftHex(0xFFFFFF, 20);
    ShiftHex(0xFFFFF, 16);
    ShiftHex(0xFFFF, 12);
    ShiftHex(0xFFF, 8);
    ShiftHex(0xFF, 4);
    ShiftHex(0xF, 0);
    ShiftNone();
  }

  lemma TopShifted(v: bv32)
    ensures Shift(v, 32) == 0
  {
    hide Shift;
    MaskShifted();
    ShiftWithin(v, 0xFFFFFFFF, 32);
  }

  /** On coefficients: shifting the register and combining it with the polynomial is one subtraction. */
  lemma Subtract(b: seq<bool>, z: seq<bool>, p: seq<bool>, f: bool)
    requires |b| == |p| == 32 && |z| >= 33 && f == (b[0] != z[0])
    ensures var d, h := Onto(b, z), b[1..] + [false];
            && d[0] == f
            && Onto(if f then XorSeq(h, p) else h, z[1..]) == (if f then XorSeq(d[1..33], p) + d[33..] else d[1..])
  {
    var d, h := Onto(b, z), b[1..] + [false];
    var n := Onto(if f then XorSeq(h, p) else h, z[1..]);
    var q := if f then XorSeq(d[1..33], p) + d[33..] else d[1..];
    assert |n| == |q| == |z| - 1;
    forall i | 0 <= i < |n| ensures n[i] == q[i] {
      assert d[i + 1] == (if i < 31 then b[i + 1] != z[i + 1] else z[i + 1]);
      assert i < 32 ==> h[i] == (i < 31 && b[i + 1]);
      if i >= 32 {
        assert n[i] == z[1..][i] == d[i + 1] == q[i];
      }
    }
  }

  /** One bit fed is one coefficient divided away. */
  lemma FeedDivides(c: bv32, m: seq<bool>, p: bv32)
    requires m != []
    ensures var d := Onto(Bits(c, 32), m + Zeros(32));
            var next := Onto(Bits(Step(Xor(c, Unit(m[0])), p), 32), m[1..] + Zeros(32));
            next == (if d[0] then XorSeq(d[1..33], Bits(p, 32)) + d[33..] else d[1..])
  {
    hide Bits;
    hide XorSeq;
    hide Onto;
    hide Xor;
    hide Odd;
    hide Half;
    var z := m + Zeros(32);
    assert z[1..] == m[1..] + Zeros(32);
    FirstBit(c, m[0]);
    LowestBit(c);
    HalfBits(c);
    BitsXor(Half(c), p, 32);
    Subtract(Bits(c, 32), z, Bits(p, 32), Odd(Xor(c, Unit(m[0]))));
  }

  lemma LowestBit(c: bv32)
    ensures Bits(c, 32)[0] == Odd(c)
  {
  }

  lemma FirstBit(c: bv32, b: bool)
    ensures Odd(Xor(c, Unit(b))) == (Odd(c) != b) && Half(Xor(c, Unit(b))) == Half(c)
  {
  }

  lemma HalfBits(c: bv32)
    ensures Bits(Half(c), 32) == Bits(c, 32)[1..] + [false]
  {
    hide Half;
    BitsLonger(c, 32);
    TopShifted(c);
    assert !Odd(0);
    assert Bits(c, 33) == [Odd(c)] + Bits(Half(c), 32);
    assert Bits(c, 33)[1..] == Bits(c, 32)[1..] + [false];
  }

  /** The register is the remainder: what it holds counts as added to the coefficients still to come. */
  lemma {:induction false} FeedIsRemainder(c: bv32, m: seq<bool>, p: bv32)
    ensures Remainder(Onto(Bits(c, 32), m + Zeros(32)), Bits(p, 32)) == Bits(Feed(c, m, p), 32)
    decreases |m|
  {
    hide Bits;
    hide Step;
    hide Xor;
    if m == [] {
      assert Onto(Bits(c, 32), Zeros(32)) == Bits(c, 32);
      assert m + Zeros(32) == Zeros(32);
    } else {
      FeedDivides(c, m, p);
      FeedIsRemainder(Step(Xor(c, Unit(m[0])), p), m[1..], p);
    }
  }

  /** `crc32_calc` is the remainder of the message, followed by 32 zeros. */
  lemma CalculateIsRemainder(m: seq<Byte>)
    ensures Remainder(MessageBits(m) + Zeros(32), Bits(0x82F63B78, 32)) == Bits(Feed(0, MessageBits(m), 0x82F63B78), 32)
  {
    hide *;
    var b := MessageBits(m);
    FeedIsRemainder(0, b, 0x82F63B78);
    BitsZero(32);
    OntoZeros(b + Zeros(32), 32);
  }

  lemma OntoZeros(d: seq<bool>, n: nat)
    requires n <= |d|
    ensures Onto(Zeros(n), d) == d
  {
  }

  function Ones(n: nat): (s: seq<bool>)
    ensures |s| == n
  {
    seq(n, i => true)
  }

  lemma BitsOnes()
    ensures Bits(0xFFFFFFFF, 32) == Ones(32)
  {
    hide Bits;
    FourOnes(0xFFFFFFFF, 28);
    FourOnes(0xFFFFFFF, 24);
    FourOnes(0xFFFFFF, 20);
    FourOnes(0xFFFFF, 16);
    FourOnes(0xFFFF, 12);
    FourOnes(0xFFF, 8);
    FourOnes(0xFF, 4);
    FourOnes(0xF, 0);
  }

  lemma FourOnes(v: bv32, n: nat)
    requires v & 0xF == 0xF
    ensures Bits(v, n + 4) == Ones(4) + Bits(v >> 4, n)
  {
    FourOdd(v);
    hide Odd;
    hide Half;
    assert Bits(v, n + 4) == [true, true] + Bits(Half(Half(v)), n + 2);
    assert Bits(Half(Half(v)), n + 2) == [true, true] + Bits(v >> 4, n);
  }

  lemma FourOdd(v: bv32)
    requires v & 0xF == 0xF
    ensures Odd(v) && Odd(Half(v)) && Odd(Half(Half(v))) && Odd(Half(Half(Half(v))))
    ensures Half(Half(Half(Half(v)))) == v >> 4
  {
    HalfFour(v);
  }

  /** `eficrc32_calc`, as in section 8 of RFC 1952: the first 32 coefficients and the remainder are complemented. */
  lemma CalculateEfiIsRemainder(m: seq<Byte>)
    ensures XorSeq(Remainder(Onto(Ones(32), MessageBits(m) + Zeros(32)), Bits(0xEDB88320, 32)), Ones(32))
         == Bits(Feed(0xFFFFFFFF, MessageBits(m), 0xEDB88320) ^ 0xFFFFFFFF, 32)
  {
    hide *;
    var b := MessageBits(m);
    FeedIsRemainder(0xFFFFFFFF, b, 0xEDB88320);
    BitsOnes();
    var f := Feed(0xFFFFFFFF, b, 0xEDB88320);
    BitsXor(f, 0xFFFFFFFF, 32);
    XorIs(f, 0xFFFFFFFF);
  }

  lemma XorIs(a: bv32, b: bv32)
    ensures Xor(a, b) == a ^ b
  {
  }

  // ---------- what a checksum detects ----------

  predicate Top(c: bv32) {
    c & 0x80000000 != 0
  }

  /** With the highest bit of the polynomial set, the highest bit after a step tells what was shifted out. */
  lemma TopIsFeedback(c: bv32, p: bv32)
    requires Top(p)
    ensures Top(Step(c, p)) <==> Odd(c)
  {
  }

  lemma StepInjective(c: bv32, d: bv32, p: bv32)
    requires Top(p) && Step(c, p) == Step(d, p)
    ensures c == d
  {
    TopIsFeedback(c, p);
    TopIsFeedback(d, p);
    XorCancel(Half(c), Half(d), p);
    assert Half(c) == Half(d);
    HalfOdd(c, d);
  }

  lemma XorCancel(a: bv32, b: bv32, p: bv32)
    ensures Xor(a, p) == Xor(b, p) <==> a == b
  {
  }

  lemma HalfOdd(c: bv32, d: bv32)
    requires Half(c) == Half(d) && Odd(c) == Odd(d)
    ensures c == d
  {
  }

  /** Different registers stay different, whatever is fed to both. */
  lemma {:induction false} FeedInjective(c: bv32, d: bv32, m: seq<bool>, p: bv32)
    requires Top(p)
    ensures Feed(c, m, p) == Feed(d, m, p) <==> c == d
    decreases |m|
  {
    hide Top;
    hide Step;
    hide Xor;
    if m != [] {
      var c1, d1 := Xor(c, Unit(m[0])), Xor(d, Unit(m[0]));
      FeedInjective(Step(c1, p), Step(d1, p), m[1..], p);
      if Feed(c, m, p) == Feed(d, m, p) {
        StepInjective(c1, d1, p);
        XorCancel(c, d, Unit(m[0]));
      }
    }
  }

  lemma {:induction false} ShiftXor(a: bv32, b: bv32, n: nat)
    ensures Shift(Xor(a, b), n) == Xor(Shift(a, n), Shift(b, n))
    decreases n
  {
    hide Xor;
    hide Half;
    if n > 0 {
      HalfXor(a, b);
      ShiftXor(Half(a), Half(b), n - 1);
    }
  }

  /** Registers that agree after `n` bits agreed in all but their lowest `n` bits before. */
  lemma {:induction false} Backwards(c: bv32, d: bv32, u: seq<bool>, v: seq<bool>, p: bv32)
    requires Top(p) && |u| == |v| <= 32 && Feed(c, u, p) == Feed(d, v, p)
    ensures Shift(c, |u|) == Shift(d, |u|)
    decreases |u|
  {
    hide Top;
    hide Xor;
    hide Odd;
    hide Half;
    if u != [] {
      var c1, d1 := Xor(c, Unit(u[0])), Xor(d, Unit(v[0]));
      var n := |u| - 1;
      FirstBit(c, u[0]);
      FirstBit(d, v[0]);
      Backwards(Step(c1, p), Step(d1, p), u[1..], v[1..], p);
      SameTop(Step(c1, p), Step(d1, p), n);
      TopIsFeedback(c1, p);
      TopIsFeedback(d1, p);
      ShiftXor(Half(c), p, n);
      ShiftXor(Half(d), p, n);
      XorCancel(Shift(Half(c), n), Shift(Half(d), n), Shift(p, n));
    }
  }

  lemma SameTop(a: bv32, b: bv32, n: nat)
    requires n < 32 && Shift(a, n) == Shift(b, n)
    ensures Top(a) == Top(b)
  {
    ShiftBit(a, n, 31);
    ShiftBit(b, n, 31);
    TopBit(a);
    TopBit(b);
  }

  lemma {:induction false} ShiftBit(a: bv32, n: nat, i: nat)
    requires n <= i
    ensures Shift(Shift(a, n), i - n) == Shift(a, i)
    decreases n
  {
    if n > 0 {
      ShiftBit(Half(a), n - 1, i - 1);
    }
  }

  lemma TopBit(a: bv32)
    ensures Top(a) <==> Odd(Shift(a, 31))
  {
    hide Shift;
    if Top(a) {
      assert Within(0x80000000, a);
      ShiftWithin(0x80000000, a, 31);
      TopShifts();
    } else {
      assert Within(a, 0x7FFFFFFF);
      ShiftWithin(a, 0x7FFFFFFF, 31);
      RestShifts();
    }
  }

  lemma TopShifts()
    ensures Shift(0x80000000, 31) == 1
  {
    hide Shift;
    ShiftHex(0x80000000, 27);
    ShiftHex(0x8000000, 23);
    ShiftHex(0x800000, 19);
    ShiftHex(0x80000, 15);
    ShiftHex(0x8000, 11);
    ShiftHex(0x800, 7);
    ShiftHex(0x80, 3);
    ShiftThree();
  }

  lemma RestShifts()
    ensures Shift(0x7FFFFFFF, 31) == 0
  {
    hide Shift;
    ShiftHex(0x7FFFFFFF, 27);
    ShiftHex(0x7FFFFFF, 23);
    ShiftHex(0x7FFFFF, 19);
    ShiftHex(0x7FFFF, 15);
    ShiftHex(0x7FFF, 11);
    ShiftHex(0x7FF, 7);
    ShiftHex(0x7F, 3);
    ShiftThree();
  }

  /** From one register, no two different runs of at most 32 bits lead to the same one. */
  lemma {:induction false} FeedDistinct(c: bv32, u: seq<bool>, v: seq<bool>, p: bv32)
    requires Top(p) && |u| == |v| <= 32 && Feed(c, u, p) == Feed(c, v, p)
    ensures u == v
    decreases |u|
  {
    hide Top;
    hide Xor;
    hide Odd;
    hide Half;
    if u != [] {
      var c1, d1 := Xor(c, Unit(u[0])), Xor(c, Unit(v[0]));
      FirstBit(c, u[0]);
      FirstBit(c, v[0]);
      Backwards(Step(c1, p), Step(d1, p), u[1..], v[1..], p);
      SameTop(Step(c1, p), Step(d1, p), |u| - 1);
      TopIsFeedback(c1, p);
      TopIsFeedback(d1, p);
      assert u[0] == v[0];
      FeedDistinct(Step(c1, p), u[1..], v[1..], p);
    }
  }

  /** Messages that differ, and only within 32 consecutive bits, have different checksums: the table
      forms of both differ in nothing but the initial register and a final complement. */
  lemma BurstDetected(k: Kind, c: bv32, x: seq<bool>, u: seq<bool>, v: seq<bool>, y: seq<bool>)
    requires |u| == |v| <= 32 && u != v
    ensures Feed(c, x + u + y, Poly(k)) != Feed(c, x + v + y, Poly(k))
  {
    assert Top(Poly(k));
    hide *;
    var p := Poly(k);
    var d := Feed(c, x, p);
    FeedConcat(c, x, u, p);
    FeedConcat(c, x, v, p);
    FeedConcat(c, x + u, y, p);
    FeedConcat(c, x + v, y, p);
    if Feed(d, u, p) == Feed(d, v, p) {
      FeedDistinct(d, u, v, p);
    }
    FeedInjective(Feed(d, u, p), Feed(d, v, p), y, p);
  }

  lemma {:induction false} BitsDecide(a: bv32, b: bv32, n: nat)
    requires Bits(a, n) == Bits(b, n) && Shift(a, n) == Shift(b, n)
    ensures a == b
    decreases n
  {
    hide Odd;
    hide Half;
    if n > 0 {
      assert Bits(a, n)[0] == Odd(a) && Bits(b, n)[0] == Odd(b);
      assert Bits(a, n)[1..] == Bits(Half(a), n - 1) && Bits(b, n)[1..] == Bits(Half(b), n - 1);
      BitsDecide(Half(a), Half(b), n - 1);
      HalfOdd(a, b);
    }
  }

  lemma {:induction false} MessageBitsDecide(a: seq<Byte>, b: seq<Byte>)
    requires |a| == |b| && MessageBits(a) == MessageBits(b)
    ensures a == b
  {
    hide Bits;
    if a != [] {
      var x, y := a[0] as bv32, b[0] as bv32;
      assert MessageBits(a)[..8] == Bits(x, 8) && MessageBits(b)[..8] == Bits(y, 8);
      assert MessageBits(a)[8..] == MessageBits(a[1..]) && MessageBits(b)[8..] == MessageBits(b[1..]);
      ByteShift(a[0]);
      ByteShift(b[0]);
      BitsDecide(x, y, 8);
      assert x as Byte == y as Byte;
      MessageBitsDecide(a[1..], b[1..]);
    }
  }

  lemma {:induction false} MessageBitsConcat(a: seq<Byte>, b: seq<Byte>)
    ensures MessageBits(a + b) == MessageBits(a) + MessageBits(b)
  {
    hide Bits;
    if a == [] {
      assert a + b == b;
    } else {
      assert (a + b)[1..] == a[1..] + b;
      MessageBitsConcat(a[1..], b);
    }
  }

  /** In particular when they differ in one byte, or within four neighbouring ones. */
  lemma BytesDetected(k: Kind, c: bv32, x: seq<Byte>, u: seq<Byte>, v: seq<Byte>, y: seq<Byte>)
    requires |u| == |v| <= 4 && u != v
    ensures Feed(c, MessageBits(x + u + y), Poly(k)) != Feed(c, MessageBits(x + v + y), Poly(k))
  {
    hide *;
    if MessageBits(u) == MessageBits(v) {
      MessageBitsDecide(u, v);
    }
    MessageBitsConcat(x, u);
    MessageBitsConcat(x, v);
    MessageBitsConcat(x + u, y);
    MessageBitsConcat(x + v, y);
    BurstDetected(k, c, MessageBits(x), MessageBits(u), MessageBits(v), MessageBits(y));
  }

  /** For a fixed byte the update never takes two registers to one, nor two bytes for a fixed register. */
  lemma UpdateInjective(k: Kind, c: bv32, d: bv32, a: Byte, b: Byte)
    ensures Update(k, c, a) == Update(k, d, a) <==> c == d
    ensures Update(k, c, a) == Update(k, c, b) <==> a == b
  {
    assert Top(Poly(k));
    hide *;
    var p := Poly(k);
    UpdateIsBits(k, c, a);
    UpdateIsBits(k, d, a);
    UpdateIsBits(k, c, b);
    FeedInjective(c, d, Bits(a as bv32, 8), p);
    if Update(k, c, a) == Update(k, c, b) {
      FeedDistinct(c, Bits(a as bv32, 8), Bits(b as bv32, 8), p);
      ByteShift(a);
      ByteShift(b);
      BitsDecide(a as bv32, b as bv32, 8);
      assert (a as bv32) as Byte == (b as bv32) as Byte;
    }
  }
}
