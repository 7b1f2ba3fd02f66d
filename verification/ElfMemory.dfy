/** Physical memory, byte by byte, and the 64-bit words in it. */
module ElfMemory {

  const WORD := 0x1_0000_0000_0000_0000

  type Byte = x: int | 0 <= x < 256
  type Word64 = x: int | 0 <= x < 0x1_0000_0000_0000_0000

  type Memory = map<nat, Byte>

  function ByteAt(mem: Memory, a: nat): Byte {
    if a in mem then mem[a] else 0
  }

  /** `n` bytes from `a` on as a number, least significant first. */
  function Load(mem: Memory, a: nat, n: nat): nat
    decreases n
  {
    if n == 0 then 0 else ByteAt(mem, a) + 256 * Load(mem, a + 1, n - 1)
  }

  function Store(mem: Memory, a: nat, w: nat, n: nat): Memory
    decreases n
  {
    if n == 0 then mem else Store(mem[a := w % 256], a + 1, w / 256, n - 1)
  }

  function Space(n: nat): nat {
    if n == 0 then 1 else 256 * Space(n - 1)
  }

  lemma {:induction false} LoadBound(mem: Memory, a: nat, n: nat)
    ensures Load(mem, a, n) < Space(n)
    decreases n
  {
    if n > 0 {
      LoadBound(mem, a + 1, n - 1);
    }
  }

  lemma EightBytes()
    ensures Space(8) == WORD
  {
    assert Space(4) == 0x1_0000_0000;
  }

  function Word(mem: Memory, a: nat): Word64 {
    LoadBound(mem, a, 8);
    EightBytes();
    Load(mem, a, 8)
  }

  function Write(mem: Memory, a: nat, w: Word64): Memory {
    Store(mem, a, w, 8)
  }

  /** Byte `b` is one of the eight from `a` on. */
  predicate Inside(a: nat, b: nat) {
    a <= b < a + 8
  }

  /** Two words have no byte in common. */
  predicate Far(a: nat, b: nat) {
    a + 8 <= b || b + 8 <= a
  }

  lemma {:induction false} StoreByte(mem: Memory, a: nat, w: nat, n: nat, b: nat)
    requires !(a <= b < a + n)
    ensures ByteAt(Store(mem, a, w, n), b) == ByteAt(mem, b)
    decreases n
  {
    if n > 0 {
      StoreByte(mem[a := w % 256], a + 1, w / 256, n - 1, b);
    }
  }

  lemma {:induction false} LoadStore(mem: Memory, a: nat, w: nat, n: nat)
    requires w < Space(n)
    ensures Load(Store(mem, a, w, n), a, n) == w
    decreases n
  {
    if n > 0 {
      LoadStore(mem[a := w % 256], a + 1, w / 256, n - 1);
      StoreByte(mem[a := w % 256], a + 1, w / 256, n - 1, a);
    }
  }

  lemma {:induction false} SameLoad(m: Memory, m': Memory, a: nat, n: nat)
    requires forall b :: a <= b < a + n ==> ByteAt(m, b) == ByteAt(m', b)
    ensures Load(m, a, n) == Load(m', a, n)
    decreases n
  {
    if n > 0 {
      SameLoad(m, m', a + 1, n - 1);
    }
  }

  /** A word that is written is read back, and no other byte changes. */
  lemma WriteWord(mem: Memory, a: nat, w: Word64)
    ensures Word(Write(mem, a, w), a) == w
  {
    hide Load;
    hide Store;
    EightBytes();
    LoadStore(mem, a, w, 8);
  }

  lemma WriteByte(mem: Memory, a: nat, w: Word64, b: nat)
    requires !Inside(a, b)
    ensures ByteAt(Write(mem, a, w), b) == ByteAt(mem, b)
  {
    StoreByte(mem, a, w, 8, b);
  }

  lemma SameWord(m: Memory, m': Memory, a: nat)
    requires forall b :: Inside(a, b) ==> ByteAt(m, b) == ByteAt(m', b)
    ensures Word(m, a) == Word(m', a)
  {
    hide Load;
    assert forall b :: a <= b < a + 8 ==> Inside(a, b);
    SameLoad(m, m', a, 8);
  }

  lemma WriteFar(mem: Memory, a: nat, w: Word64, b: nat)
    requires Far(a, b)
    ensures Word(Write(mem, a, w), b) == Word(mem, b)
  {
    hide Word;
    hide Write;
    forall c: nat | Inside(b, c) ensures ByteAt(Write(mem, a, w), c) == ByteAt(mem, c) {
      WriteByte(mem, a, w, c);
    }
    SameWord(Write(mem, a, w), mem, b);
  }
}
