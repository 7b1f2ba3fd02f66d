/** Printing numbers into the kernel's scratch buffer, and reading them back with the C library. */
module Numbers {

  type Byte = x: int | 0 <= x < 256

  const WORD := 0x1_0000_0000_0000_0000

  const ZERO: Byte := 48
  const SPACE: Byte := 32
  const MINUS: Byte := 45
  const LETTER_X: Byte := 120

  datatype Radix = Dec | Hex

  function Base(r: Radix): (b: nat)
    ensures b == 10 || b == 16
  {
    if r.Dec? then 10 else 16
  }

  function Pow(r: Radix, n: nat): (p: nat)
    ensures p > 0
  {
    if n == 0 then 1 else Base(r) * Pow(r, n - 1)
  }

  /** The 64-bit two's complement number that a word stands for. */
  function Signed(w: nat): int
    requires w < WORD
  {
    if w < WORD / 2 then w else w - WORD
  }

  predicate Fits(c: int) {
    -WORD / 2 <= c < WORD / 2
  }

  predicate IsDec(b: Byte) {
    ZERO <= b < ZERO + 10
  }

  predicate IsHex(b: Byte) {
    IsDec(b) || 97 <= b < 103 || 65 <= b < 71
  }

  predicate IsDigit(r: Radix, b: Byte) {
    if r.Dec? then IsDec(b) else IsHex(b)
  }

  /** What a character adds to the number being read. Reading decimal, the first character is not
      checked and may add a negative amount; reading hexadecimal, other characters add nothing. */
  function Digit(r: Radix, b: Byte): int {
    if r.Dec? || IsDec(b) then b - ZERO else if 97 <= b < 103 then b - 87 else if 65 <= b < 71 then b - 55 else 0
  }

  /** The number that a sequence of digits denotes, most significant digit first. */
  function Value(r: Radix, t: seq<Byte>): int {
    if t == [] then 0 else Value(r, t[..|t| - 1]) * Base(r) + Digit(r, t[|t| - 1])
  }

  predicate AllDigits(r: Radix, t: seq<Byte>) {
    forall x :: x in t ==> IsDigit(r, x)
  }

  lemma PowSucc(r: Radix, x: int, n: nat)
    ensures x * Pow(r, n) * Base(r) == x * Pow(r, n + 1)
  {
    if r.Dec? {
      assert x * Pow(r, n) * 10 == x * (10 * Pow(r, n));
    } else {
      assert x * Pow(r, n) * 16 == x * (16 * Pow(r, n));
    }
  }

  /** A digit in front counts with its place. */
  lemma {:induction false} ValueCons(r: Radix, x: Byte, t: seq<Byte>)
    ensures Value(r, [x] + t) == Digit(r, x) * Pow(r, |t|) + Value(r, t)
  {
    hide Digit;
    if t == [] {
      assert [x] + t == [x];
      assert Value(r, [x]) == Value(r, []) * Base(r) + Digit(r, x);
    } else {
      var s, u := t[..|t| - 1], [x] + t;
      assert u[..|u| - 1] == [x] + s;
      ValueCons(r, x, s);
      PowSucc(r, Digit(r, x), |s|);
    }
  }

  lemma {:induction false} ValueBound(r: Radix, t: seq<Byte>)
    requires AllDigits(r, t)
    ensures 0 <= Value(r, t) < Pow(r, |t|)
  {
    if t != [] {
      var s := t[..|t| - 1];
      ValueBound(r, s);
      assert t[|t| - 1] in t;
      assert 0 <= Digit(r, t[|t| - 1]) < Base(r);
    }
  }

  /** How many digits a number takes. */
  function Digits(r: Radix, c: nat): (n: nat)
    ensures n > 0
  {
    if c < Base(r) then 1 else 1 + Digits(r, c / Base(r))
  }

  function Max(a: nat, b: nat): nat {
    if a < b then b else a
  }

  /** One digit, in front of those already printed. */
  method PutDigit(r: Radix, tmpstr: array<Byte>, i: nat, x: Byte, ghost end: nat)
    requires 0 < i <= end < tmpstr.Length && IsDigit(r, x) && AllDigits(r, tmpstr[i..end])
    modifies tmpstr
    ensures tmpstr[i - 1..end] == [x] + old(tmpstr[i..end]) && tmpstr[end] == old(tmpstr[end])
    ensures AllDigits(r, tmpstr[i - 1..end])
    ensures Value(r, tmpstr[i - 1..end]) == Digit(r, x) * Pow(r, end - i) + old(Value(r, tmpstr[i..end]))
  {
    tmpstr[i - 1] := x;
    assert tmpstr[i - 1..end] == [x] + old(tmpstr[i..end]);
    ValueCons(r, x, old(tmpstr[i..end]));
  }

  lemma Shifted(r: Radix, c: int, n: nat)
    ensures c * Pow(r, n) == (c / Base(r)) * Pow(r, n + 1) + (c % Base(r)) * Pow(r, n)
  {
    var p := Pow(r, n);
    if r.Dec? {
      var q, m := c / 10, c % 10;
      assert (q * 10 + m) * p == q * (10 * p) + m * p;
    } else {
      var q, m := c / 16, c % 16;
      assert (q * 16 + m) * p == q * (16 * p) + m * p;
    }
  }

  lemma {:induction false} PowGrows(r: Radix, m: nat, n: nat)
    requires m <= n
    ensures Pow(r, m) <= Pow(r, n)
    decreases n
  {
    if m < n {
      PowGrows(r, m, n - 1);
    }
  }

  // ---------- printing hexadecimal ----------

  function HexChar(n: int): (x: Byte)
    requires 0 <= n < 16
    ensures IsDigit(Hex, x) && Digit(Hex, x) == n
  {
    if n < 10 then ZERO + n else 55 + n
  }

  /** How many characters a number takes: all sixteen when negative, else as few as possible, but at
      least two for each byte of an admissible width. */
  function HexWidth(c: int, cnt: int): nat {
    Max(if c < 0 then 16 else Digits(Hex, c), if 0 < cnt <= 8 then 2 * cnt else 0)
  }

  /** The text that `sprintf_puthex` makes of a number: its length, its characters and its value. */
  ghost predicate IsHexText(t: seq<Byte>, c: int, cnt: int) {
    |t| == HexWidth(c, cnt) <= 16 && AllDigits(Hex, t) && Value(Hex, t) == c % WORD
  }

  /** `sprintf_puthex`: digits from the right, then leading zeros. */
  method PutHex(tmpstr: array<Byte>, c0: int, cnt: int) returns (i: nat)
    requires tmpstr.Length == 33 && Fits(c0)
    modifies tmpstr
    ensures i <= 16 && tmpstr[16] == 0 && IsHexText(tmpstr[i..16], c0, cnt)
  {
    i := HexDigits(tmpstr, c0);
    ghost var n := 16 - i;
    if 0 < cnt <= 8 {
      while i > 16 - cnt * 2
        invariant i <= 16 && tmpstr[16] == 0
        invariant 16 - i == n || n < 16 - i <= cnt * 2
        invariant AllDigits(Hex, tmpstr[i..16]) && Value(Hex, tmpstr[i..16]) == c0 % WORD
      {
        PutDigit(Hex, tmpstr, i, ZERO, 16);
        assert 0 * Pow(Hex, 16 - i) == 0;
        i := i - 1;
      }
    }
  }

  method HexDigits(tmpstr: array<Byte>, c0: int) returns (i: nat)
    requires tmpstr.Length == 33 && Fits(c0)
    modifies tmpstr
    ensures i <= 16 && tmpstr[16] == 0 && 16 - i == if c0 < 0 then 16 else Digits(Hex, c0)
    ensures AllDigits(Hex, tmpstr[i..16]) && Value(Hex, tmpstr[i..16]) == c0 % WORD
  {
    var c := c0;
    i := 16;
    tmpstr[i] := 0;
    while true
      invariant 0 < i <= 16 && tmpstr[16] == 0
      invariant c0 >= 0 ==> c >= 0 && 16 - i + Digits(Hex, c) == Digits(Hex, c0)
      invariant c0 < 0 ==> c < 0
      invariant AllDigits(Hex, tmpstr[i..16])
      invariant c * Pow(Hex, 16 - i) + Value(Hex, tmpstr[i..16]) == c0
      decreases i
    {
      Shifted(Hex, c, 16 - i);
      PutDigit(Hex, tmpstr, i, HexChar(c % 16), 16);
      i := i - 1;
      c := c / 16;
      if c == 0 || i == 0 {
        break;
      }
    }
    HexRemainder(c, c0, tmpstr[i..16]);
    if c0 >= 0 {
      FewDigits(c, c0, tmpstr[i..16]);
    }
  }

  lemma SixteenDigits()
    ensures Pow(Hex, 16) == WORD
  {
    assert Pow(Hex, 4) == 0x1_0000;
    assert Pow(Hex, 8) == 0x1_0000_0000;
    assert Pow(Hex, 12) == 0x1_0000_0000_0000;
  }

  lemma HexRemainder(c: int, c0: int, t: seq<Byte>)
    requires Fits(c0) && |t| <= 16 && (c == 0 || |t| == 16) && AllDigits(Hex, t)
    requires c * Pow(Hex, |t|) + Value(Hex, t) == c0
    ensures Value(Hex, t) == c0 % WORD
  {
    ValueBound(Hex, t);
    PowGrows(Hex, |t|, 16);
    SixteenDigits();
    if c == 0 {
      assert 0 * Pow(Hex, |t|) == 0;
    }
    Remainder(c0, if c == 0 then 0 else c, Value(Hex, t));
  }

  lemma Remainder(c0: int, q: int, v: int)
    requires c0 == q * WORD + v && 0 <= v < WORD
    ensures v == c0 % WORD
  {
  }

  /** A non-negative number is printed whole. */
  lemma FewDigits(c: int, c0: int, t: seq<Byte>)
    requires Fits(c0) && 0 <= c && 0 <= c0 && |t| <= 16 && (c == 0 || |t| == 16) && AllDigits(Hex, t)
    requires c * Pow(Hex, |t|) + Value(Hex, t) == c0
    ensures c == 0
  {
    ValueBound(Hex, t);
    SixteenDigits();
  }

  // ---------- printing decimal ----------

  const MOST := 99999999999999999

  /** What is printed of a number: at most seventeen digits. */
  function Clamped(c: int): nat {
    var a := if c < 0 then -c else c;
    if a > MOST then MOST else a
  }

  /** How many characters the number itself takes, with its sign. */
  function DecLength(c: int): nat {
    Digits(Dec, Clamped(c)) + if c < 0 then 1 else 0
  }

  predicate Padded(c: int, cnt: int) {
    DecLength(c) < cnt < 18
  }

  function Spaces(n: nat): (s: seq<Byte>)
    ensures |s| == n
  {
    seq(n, i => SPACE)
  }

  /** The text that `sprintf_putdec` makes of a number, its digits being `t`. */
  ghost predicate IsDecText(s: seq<Byte>, t: seq<Byte>, c: int, cnt: int) {
    && |t| == Digits(Dec, Clamped(c)) <= 17 && AllDigits(Dec, t) && Value(Dec, t) == Clamped(c)
    && s == (if Padded(c, cnt) then Spaces(cnt - DecLength(c)) else []) + (if c < 0 then [MINUS] else []) + t
  }

  /** `sprintf_putdec`: digits from the right, the sign, then spaces. The one number whose negation
      overflows is excluded. */
  method PutDec(tmpstr: array<Byte>, c0: int, cnt: int) returns (i: nat, ghost t: seq<Byte>)
    requires tmpstr.Length == 33 && Fits(c0) && c0 != -WORD / 2
    modifies tmpstr
    ensures i <= 18 && tmpstr[18] == 0 && IsDecText(tmpstr[i..18], t, c0, cnt)
  {
    hide Value;
    hide AllDigits;
    hide Digits;
    i := DecDigits(tmpstr, Clamped(c0));
    t := tmpstr[i..18];
    ghost var u := t;
    if c0 < 0 {
      i := i - 1;
      tmpstr[i] := MINUS;
      u := [MINUS] + t;
    }
    assert tmpstr[i..18] == u;
    if 0 < cnt < 18 {
      i := Pad(tmpstr, i, cnt, u);
    }
    ghost var gap := if Padded(c0, cnt) then cnt - DecLength(c0) else 0;
    assert tmpstr[i..18] == Spaces(gap) + u;
    assert Spaces(0) == [];
  }

  method Pad(tmpstr: array<Byte>, i0: nat, cnt: int, ghost u: seq<Byte>) returns (i: nat)
    requires tmpstr.Length == 33 && tmpstr[18] == 0 && i0 <= 18 && tmpstr[i0..18] == u && 0 < cnt < 18
    modifies tmpstr
    ensures tmpstr[18] == 0 && i == if i0 > 18 - cnt then 18 - cnt else i0
    ensures tmpstr[i..18] == Spaces(i0 - i) + u
  {
    i := i0;
    MoreSpaces(0, u);
    hide Spaces;
    while i > 18 - cnt
      invariant i <= i0 && tmpstr[18] == 0 && (i == i0 || i >= 18 - cnt)
      invariant tmpstr[i..18] == Spaces(i0 - i) + u
    {
      MoreSpaces(i0 - i, u);
      PutSpace(tmpstr, i);
      i := i - 1;
    }
  }

  method PutSpace(tmpstr: array<Byte>, i: nat)
    requires tmpstr.Length == 33 && 0 < i <= 18
    modifies tmpstr
    ensures tmpstr[i - 1..18] == [SPACE] + old(tmpstr[i..18]) && tmpstr[18] == old(tmpstr[18])
  {
    tmpstr[i - 1] := SPACE;
  }

  lemma MoreSpaces(n: nat, u: seq<Byte>)
    ensures Spaces(0) + u == u && [SPACE] + (Spaces(n) + u) == Spaces(n + 1) + u
  {
    assert [SPACE] + Spaces(n) == Spaces(n + 1);
  }

  method DecDigits(tmpstr: array<Byte>, c0: nat) returns (i: nat)
    requires tmpstr.Length == 33 && c0 <= MOST
    modifies tmpstr
    ensures 0 < i <= 18 && tmpstr[18] == 0 && 18 - i == Digits(Dec, c0)
    ensures AllDigits(Dec, tmpstr[i..18]) && Value(Dec, tmpstr[i..18]) == c0
  {
    var c := c0;
    i := 18;
    tmpstr[i] := 0;
    while true
      invariant 0 < i <= 18 && tmpstr[18] == 0 && 0 <= c
      invariant 18 - i + Digits(Dec, c) == Digits(Dec, c0)
      invariant AllDigits(Dec, tmpstr[i..18])
      invariant c * Pow(Dec, 18 - i) + Value(Dec, tmpstr[i..18]) == c0
      invariant i < 18 ==> c > 0
      decreases i
    {
      Shifted(Dec, c, 18 - i);
      EnoughRoom(c, c0, tmpstr[i..18]);
      PutDigit(Dec, tmpstr, i, ZERO + c % 10, 18);
      i := i - 1;
      c := c / 10;
      if c == 0 || i == 0 {
        break;
      }
    }
  }

  lemma SeventeenDigits()
    ensures Pow(Dec, 17) == MOST + 1
  {
    assert Pow(Dec, 6) == 1_000_000;
    assert Pow(Dec, 12) == 1_000_000_000_000;
  }

  lemma EnoughRoom(c: int, c0: nat, t: seq<Byte>)
    requires c0 <= MOST && 0 <= c && AllDigits(Dec, t) && (t != [] ==> c > 0)
    requires c * Pow(Dec, |t|) + Value(Dec, t) == c0
    ensures |t| < 17
  {
    ValueBound(Dec, t);
    if |t| >= 17 {
      SeventeenDigits();
      PowGrows(Dec, 17, |t|);
    }
  }

  // ---------- reading ----------

  /** Arithmetic on unsigned 64-bit words. */
  function Wrap(x: int): (w: nat)
    ensures w < WORD
  {
    x % WORD
  }

  lemma WrapAdd(a: int, b: int)
    ensures Wrap(Wrap(a) + b) == Wrap(a + b)
  {
    var q := a / WORD;
    assert a == q * WORD + Wrap(a);
    WrapShift(Wrap(a) + b, q);
  }

  lemma WrapShift(x: int, q: int)
    ensures Wrap(x + q * WORD) == Wrap(x)
  {
    var k := x / WORD;
    assert x == k * WORD + x % WORD;
    Remainder(x + q * WORD, k + q, x % WORD);
  }

  function Limited(v: nat, least: nat, most: nat): nat {
    var w := if v < least then least else v;
    if most != 0 && w > most then most else w
  }

  /** What is read from position `i` on, `v` having been read before. */
  function Rest(r: Radix, s: seq<Byte>, i: nat, v: nat): (w: nat)
    requires v < WORD && i <= |s|
    ensures w < WORD
    decreases |s| - i
  {
    if i < |s| && IsDigit(r, s[i]) then Rest(r, s, i + 1, Wrap(v * Base(r) + Digit(r, s[i]))) else v
  }

  /** How far it is read. */
  function End(r: Radix, s: seq<Byte>, i: nat): (e: nat)
    requires i <= |s|
    ensures i <= e <= |s|
    decreases |s| - i
  {
    if i < |s| && IsDigit(r, s[i]) then End(r, s, i + 1) else i
  }

  predicate Prefixed(s: seq<Byte>, i: nat) {
    i + 1 < |s| && s[i] == ZERO && s[i + 1] == LETTER_X
  }

  /** Memory from position `i` on: more than one byte, also after a prefix, and a zero at the end. The string itself
      may be empty; reading then goes on behind its end. */
  predicate Readable(s: seq<Byte>, i: nat)
    decreases |s| - i
  {
    i + 1 < |s| && s[|s| - 1] == 0 && (Prefixed(s, i) ==> Readable(s, i + 2))
  }

  /** From the first character, which is taken without a check. */
  function Read(r: Radix, s: seq<Byte>, i: nat): (w: nat)
    requires i < |s|
    ensures w < WORD
  {
    Rest(r, s, i + 1, Wrap(Digit(r, s[i])))
  }

  function HexStart(s: seq<Byte>, i: nat): nat {
    if Prefixed(s, i) then i + 2 else i
  }

  /** The number between the limits that is closest to the one read; no upper limit if that is zero. When the limits
      exclude each other, the upper one wins. */
  lemma LimitedNearest(v: nat, least: nat, most: nat, u: nat)
    ensures var w := Limited(v, least, most);
            && (least <= u && (most == 0 || u <= most) ==>
                  && least <= w && (most == 0 || w <= most)
                  && (if w < v then v - w else w - v) <= (if u < v then v - u else u - v))
            && (0 < most < least ==> w == most)
  {
  }

  /** The same character, or the two cases of a hexadecimal digit. */
  predicate SameDigit(a: Byte, b: Byte) {
    a == b || (65 <= a < 71 && b == a + 32) || (65 <= b < 71 && a == b + 32)
  }

  lemma {:induction false} RestCase(s: seq<Byte>, t: seq<Byte>, i: nat, v: nat)
    requires |s| == |t| && v < WORD && i <= |s| && forall k :: i <= k < |s| ==> SameDigit(s[k], t[k])
    ensures Rest(Hex, s, i, v) == Rest(Hex, t, i, v) && End(Hex, s, i) == End(Hex, t, i)
    decreases |s| - i
  {
    hide Wrap;
    if i < |s| && IsHex(s[i]) {
      RestCase(s, t, i + 1, Wrap(v * 16 + Digit(Hex, s[i])));
    }
  }

  /** Upper and lower case digits read alike. */
  lemma HexCase(s: seq<Byte>, t: seq<Byte>, i: nat)
    requires |s| == |t| && i < |s| && forall k :: i <= k < |s| ==> SameDigit(s[k], t[k])
    ensures Read(Hex, s, i) == Read(Hex, t, i) && End(Hex, s, i + 1) == End(Hex, t, i + 1)
  {
    hide Wrap;
    RestCase(s, t, i + 1, Wrap(Digit(Hex, s[i])));
  }

  /** `stdlib_hex`. */
  method StdlibHex(s: seq<Byte>, i: nat, least: nat, most: nat) returns (v: nat, next: nat)
    requires Readable(s, i) && least < WORD && most < WORD
    ensures v == Limited(Read(Hex, s, HexStart(s, i)), least, most)
    ensures next == End(Hex, s, HexStart(s, i) + 1)
  {
    next := HexStart(s, i);
    v := 0;
    ghost var start := next;
    v := Wrap(Digit(Hex, s[next]));
    hide Wrap;
    hide Digit;
    next := next + 1;
    while IsHex(s[next])
      invariant next < |s| && v < WORD
      invariant Rest(Hex, s, next, v) == Read(Hex, s, start) && End(Hex, s, next) == End(Hex, s, start + 1)
      decreases |s| - next
    {
      WrapAdd(v * 16, Digit(Hex, s[next]));
      v := Wrap(Wrap(v * 16) + Digit(Hex, s[next]));
      next := next + 1;
    }
    if v < least {
      v := least;
    }
    if most != 0 && v > most {
      v := most;
    }
  }

  function ParsedDec(s: seq<Byte>, i: nat): (w: nat)
    requires Readable(s, i)
    ensures w < WORD
  {
    if Prefixed(s, i) then Read(Hex, s, HexStart(s, i + 2)) else Read(Dec, s, i)
  }

  /** `stdlib_dec`, which reads hexadecimal after a prefix. */
  method StdlibDec(s: seq<Byte>, i: nat, least: nat, most: nat) returns (v: nat, next: nat)
    requires Readable(s, i) && least < WORD && most < WORD
    ensures v == Limited(ParsedDec(s, i), least, most)
    ensures next == if Prefixed(s, i) then End(Hex, s, HexStart(s, i + 2) + 1) else End(Dec, s, i + 1)
  {
    if Prefixed(s, i) {
      v, next := StdlibHex(s, i + 2, least, most);
      return;
    }
    v := Wrap(Digit(Dec, s[i]));
    hide Wrap;
    hide Digit;
    next := i + 1;
    while IsDec(s[next])
      invariant next < |s| && v < WORD
      invariant Rest(Dec, s, next, v) == Read(Dec, s, i) && End(Dec, s, next) == End(Dec, s, i + 1)
      decreases |s| - next
    {
      WrapAdd(v * 10, Digit(Dec, s[next]));
      v := Wrap(Wrap(v * 10) + Digit(Dec, s[next]));
      next := next + 1;
    }
    if v < least {
      v := least;
    }
    if most != 0 && v > most {
      v := most;
    }
  }

  function Negated(w: nat): (v: nat)
    requires w < WORD
    ensures v < WORD
  {
    Wrap(0 - w)
  }

  function Parsed(s: seq<Byte>): int
    requires s != [] && Readable(s, if s[0] == MINUS then 1 else 0)
  {
    if s[0] == MINUS then Signed(Negated(ParsedDec(s, 1))) else Signed(ParsedDec(s, 0))
  }

  /** `atol`. */
  method Atol(s: seq<Byte>) returns (c: int)
    requires s != [] && Readable(s, if s[0] == MINUS then 1 else 0)
    ensures c == Parsed(s)
  {
    var i := 0;
    var minus := false;
    if s[0] == MINUS {
      minus := true;
      i := i + 1;
    }
    var v, next := StdlibDec(s, i, 0, WORD - 1);
    c := Signed(if minus then Negated(v) else v);
  }

  // ---------- round trips ----------

  lemma WrapMul(x: int, p: int, y: int)
    ensures Wrap(Wrap(x) * p + y) == Wrap(x * p + y)
  {
    var q := x / WORD;
    assert x == q * WORD + Wrap(x);
    hide Wrap;
    assert x * p == (q * p) * WORD + Wrap(x) * p;
    WrapShift(Wrap(x) * p + y, q * p);
  }

  lemma SignedWrap(x: int)
    requires Fits(x)
    ensures Signed(Wrap(x)) == x
  {
  }

  /** Digits up to the terminator are all read, and count with their places. */
  lemma {:induction false} RestIsValue(r: Radix, s: seq<Byte>, i: nat, t: seq<Byte>, v: nat)
    requires i + |t| + 1 == |s| && s[i..i + |t|] == t && s[|s| - 1] == 0 && AllDigits(r, t) && v < WORD
    ensures Rest(r, s, i, v) == Wrap(v * Pow(r, |t|) + Value(r, t))
    decreases |t|
  {
    hide Wrap;
    hide Digit;
    hide IsDigit;
    hide Value;
    hide Pow;
    if t == [] {
      NoDigits(r);
      assert v * 1 == v;
      WrapSmall(v);
    } else {
      var x, u := t[0], t[1..];
      assert t == [x] + u && s[i] == x && x in t;
      assert s[i + 1..i + 1 + |u|] == u;
      ValueCons(r, x, u);
      var w := v * Base(r) + Digit(r, x);
      RestIsValue(r, s, i + 1, u, Wrap(w));
      WrapMul(w, Pow(r, |u|), Value(r, u));
      Places(r, v, Digit(r, x), |u|);
    }
  }

  lemma NoDigits(r: Radix)
    ensures Value(r, []) == 0 && Pow(r, 0) == 1 && !IsDigit(r, 0)
  {
  }

  lemma WrapSmall(v: int)
    requires 0 <= v < WORD
    ensures Wrap(v) == v
  {
  }

  lemma Places(r: Radix, v: int, d: int, n: nat)
    ensures (v * Base(r) + d) * Pow(r, n) == v * Pow(r, n + 1) + d * Pow(r, n)
  {
    PowSucc(r, v, n);
    Distribute(v, Base(r), d, Pow(r, n));
  }

  lemma Distribute(v: int, b: int, d: int, p: int)
    ensures (v * b + d) * p == v * p * b + d * p
  {
  }

  /** A whole number, from its first digit. */
  lemma ReadIsValue(r: Radix, s: seq<Byte>, i: nat, t: seq<Byte>)
    requires t != [] && i + |t| + 1 == |s| && s[i..i + |t|] == t && s[|s| - 1] == 0 && AllDigits(r, t)
    ensures Read(r, s, i) == Wrap(Value(r, t)) && !Prefixed(s, i) && Readable(s, i)
  {
    DigitsReadable(r, s, i, t);
    hide Readable;
    hide Prefixed;
    hide Wrap;
    hide Digit;
    hide Value;
    hide Pow;
    hide Rest;
    hide IsDigit;
    hide AllDigits;
    var x, u := t[0], t[1..];
    Behind(r, s, i, t);
    RestIsValue(r, s, i + 1, u, Wrap(Digit(r, x)));
    FirstDigit(r, x, u);
  }

  /** What comes behind the first digit. */
  lemma Behind(r: Radix, s: seq<Byte>, i: nat, t: seq<Byte>)
    requires t != [] && i + |t| + 1 == |s| && s[i..i + |t|] == t && AllDigits(r, t)
    ensures s[i] == t[0] && s[i + 1..i + 1 + |t[1..]|] == t[1..] && AllDigits(r, t[1..]) && [t[0]] + t[1..] == t
  {
    hide IsDigit;
    assert s[i] == s[i..i + |t|][0];
    assert s[i + 1..i + 1 + |t[1..]|] == s[i..i + |t|][1..];
  }

  lemma FirstDigit(r: Radix, x: Byte, u: seq<Byte>)
    ensures Wrap(Wrap(Digit(r, x)) * Pow(r, |u|) + Value(r, u)) == Wrap(Value(r, [x] + u))
  {
    hide Wrap;
    hide Digit;
    hide Value;
    hide Pow;
    ValueCons(r, x, u);
    WrapMul(Digit(r, x), Pow(r, |u|), Value(r, u));
  }

  /** Digits have no prefix. */
  lemma DigitsReadable(r: Radix, s: seq<Byte>, i: nat, t: seq<Byte>)
    requires t != [] && i + |t| + 1 == |s| && s[i..i + |t|] == t && s[|s| - 1] == 0 && AllDigits(r, t)
    ensures !Prefixed(s, i) && Readable(s, i)
  {
    if |t| > 1 {
      assert s[i + 1] == t[1] && t[1] in t;
    }
  }

  /** `stdlib_hex` recovers every 64-bit value that `sprintf_puthex` prints, at any width. */
  lemma HexRoundTrip(t: seq<Byte>, c: int, cnt: int)
    requires Fits(c) && IsHexText(t, c, cnt)
    ensures Readable(t + [0], 0)
    ensures var v := Limited(Read(Hex, t + [0], HexStart(t + [0], 0)), 0, 0); v == c % WORD && Signed(v) == c
  {
    hide Value;
    assert (t + [0])[0..0 + |t|] == t;
    ReadIsValue(Hex, t + [0], 0, t);
  }

  /** What `atol` makes of unpadded text. */
  lemma UnpaddedParsed(s: seq<Byte>, t: seq<Byte>, c: int)
    requires t != [] && AllDigits(Dec, t) && 0 <= Value(Dec, t) <= MOST && s == (if c < 0 then [MINUS] else []) + t + [0]
    ensures Readable(s, if s[0] == MINUS then 1 else 0) && Parsed(s) == if c < 0 then -Value(Dec, t) else Value(Dec, t)
  {
    var i := if c < 0 then 1 else 0;
    assert s[i..i + |t|] == t;
    assert t[0] in t;
    ReadIsValue(Dec, s, i, t);
    var v := Value(Dec, t);
    hide Value;
    hide Wrap;
    WrapSmall(v);
    SignedWrap(v);
    SignedWrap(-v);
  }

  /** Padding is taken for a digit sixteen below zero. */
  lemma PaddedParsed(s: seq<Byte>, t: seq<Byte>, c: int, k: nat)
    requires t != [] && |t| <= 16 && AllDigits(Dec, t) && k > 0
    requires s == Spaces(k) + (if c < 0 then [MINUS] else []) + t + [0]
    ensures Readable(s, 0) && s[0] != MINUS
    ensures Parsed(s) == if k > 1 || c < 0 then -16 else -16 * Pow(Dec, |t|) + Value(Dec, t)
  {
    assert s[0] == SPACE && Digit(Dec, SPACE) == -16;
    hide Wrap;
    hide Value;
    hide Pow;
    if k > 1 || c < 0 {
      assert s[1] == SPACE || s[1] == MINUS;
      SignedWrap(-16);
    } else {
      assert s[1..1 + |t|] == t;
      OneSpace(s, t);
    }
  }

  lemma OneSpace(s: seq<Byte>, t: seq<Byte>)
    requires t != [] && |t| <= 16 && AllDigits(Dec, t) && |s| == |t| + 2 && s[1..1 + |t|] == t && s[|s| - 1] == 0
    ensures Signed(Rest(Dec, s, 1, Wrap(-16))) == -16 * Pow(Dec, |t|) + Value(Dec, t)
  {
    hide Wrap;
    hide Value;
    hide Pow;
    hide Rest;
    RestIsValue(Dec, s, 1, t, Wrap(-16));
    WrapMul(-16, Pow(Dec, |t|), Value(Dec, t));
    ValueBound(Dec, t);
    PowGrows(Dec, |t|, 17);
    SeventeenDigits();
    SignedWrap(-16 * Pow(Dec, |t|) + Value(Dec, t));
  }

  /** `atol` recovers what `sprintf_putdec` printed exactly when the number was not cut to seventeen
      digits and no space was put before it; or, by chance, when it was sixteen below zero. */
  lemma DecRoundTrip(s: seq<Byte>, t: seq<Byte>, c: int, cnt: int)
    requires Fits(c) && c != -WORD / 2 && IsDecText(s, t, c, cnt)
    ensures s != [] && Readable(s + [0], if (s + [0])[0] == MINUS then 1 else 0)
    ensures Parsed(s + [0]) == c <==> if Padded(c, cnt) then c == -16 else -MOST <= c <= MOST
  {
    hide Value;
    hide Parsed;
    hide Readable;
    if Padded(c, cnt) {
      var k := cnt - DecLength(c);
      assert |t| <= 16;
      PaddedParsed(s + [0], t, c, k);
      ValueBound(Dec, t);
      PowGrows(Dec, |t|, 17);
      SeventeenDigits();
    } else {
      assert s + [0] == (if c < 0 then [MINUS] else []) + t + [0];
      UnpaddedParsed(s + [0], t, c);
    }
  }

  /** A number that is not recovered: one space is enough. */
  lemma PaddingExample(s: seq<Byte>, t: seq<Byte>)
    requires IsDecText(s, t, 7, 2)
    ensures s != [] && s[0] == SPACE && Readable(s + [0], 0) && Parsed(s + [0]) == -153
  {
    hide Value;
    hide Parsed;
    hide Readable;
    assert Digits(Dec, 7) == 1 && Pow(Dec, 1) == 10;
    PaddedParsed(s + [0], t, 7, 1);
  }
}
