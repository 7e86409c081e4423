/** The 32-bit machine the kernel runs on: unsigned words that wrap, bytes, and byte-addressed
    memory holding little-endian words. */
module Machine {
  const WORD_RANGE := 0x1_0000_0000

  type Byte = b: int | 0 <= b < 256
  type Word = w: int | 0 <= w < 0x1_0000_0000

  /** A result reduced to 32 bits. */
  function Wrap(x: int): (r: Word) {
    if 0 <= x < WORD_RANGE then x else x % WORD_RANGE
  }

  /** Unsigned 32-bit addition. */
  function Add32(a: int, b: int): (r: Word) {
    Wrap(a + b)
  }

  /** Unsigned 32-bit subtraction. */
  function Sub32(a: int, b: int): (r: Word) {
    Wrap(a - b)
  }

  /** The result is congruent to `x` and in range. */
  lemma WrapIs(x: int)
    ensures Wrap(x) == x % 0x1_0000_0000
  {
  }

  /** A wrapping counter follows an unbounded count. */
  lemma WrapCounts(n: nat)
    ensures Wrap(n + 1) == Add32(Wrap(n), 1)
  {
  }

  /** Reducing a summand first does not change the reduced sum. */
  lemma WrapSum(a: nat, b: nat)
    ensures Wrap(Wrap(a) + b) == Wrap(a + b)
  {
    var q := a / WORD_RANGE;
    assert a == q * WORD_RANGE + a % WORD_RANGE;
    WrapShift(a % WORD_RANGE + b, q);
  }

  lemma {:induction false} WrapShift(n: nat, q: nat)
    ensures Wrap(n + q * WORD_RANGE) == Wrap(n)
    decreases q
  {
    if q > 0 {
      WrapShift(n, q - 1);
    }
  }

  /** The distance between two wrapping counters follows each increment. */
  lemma CounterDistance(a: Word, b: Word)
    ensures Sub32(a, b) + 1 < WORD_RANGE ==> Sub32(Add32(a, 1), b) == Sub32(a, b) + 1
    ensures Sub32(a, b) > 0 ==> Sub32(a, Add32(b, 1)) == Sub32(a, b) - 1
  {
    assert Sub32(a, b) == if a >= b then a - b else a - b + WORD_RANGE;
    assert Add32(a, 1) == if a + 1 < WORD_RANGE then a + 1 else 0;
    assert Add32(b, 1) == if b + 1 < WORD_RANGE then b + 1 else 0;
  }

  function FromBytes(b0: Byte, b1: Byte, b2: Byte, b3: Byte): (w: Word) {
    b0 as int + 0x100 * (b1 as int + 0x100 * (b2 as int + 0x100 * b3 as int))
  }

  lemma BytesOfWord(w: Word)
    ensures 0 <= w / 0x100 / 0x100 / 0x100 < 0x100
    ensures FromBytes(w % 0x100, w / 0x100 % 0x100, w / 0x100 / 0x100 % 0x100, w / 0x100 / 0x100 / 0x100) == w
  {
  }

  /** The word stored at address `a`, least significant byte first. */
  function LoadWord(ram: seq<Byte>, a: int): (w: Word)
    requires 0 <= a && a + 4 <= |ram|
  {
    FromBytes(ram[a], ram[a + 1], ram[a + 2], ram[a + 3])
  }

  predicate Outside(lo: int, hi: int, a: int) {
    a < lo || hi <= a
  }

  /** Memory `r1` differs from `r0` at most inside `[lo, hi)`. */
  ghost predicate SameOutside(r0: seq<Byte>, r1: seq<Byte>, lo: int, hi: int) {
    |r0| == |r1| && forall a {:trigger Outside(lo, hi, a)} :: 0 <= a < |r0| && Outside(lo, hi, a) ==> r1[a] == r0[a]
  }

  function StoreBytes(ram: seq<Byte>, a: int, b0: Byte, b1: Byte, b2: Byte, b3: Byte): (r: seq<Byte>)
    requires 0 <= a && a + 4 <= |ram|
    ensures SameOutside(ram, r, a, a + 4)
    ensures r[a] == b0 && r[a + 1] == b1 && r[a + 2] == b2 && r[a + 3] == b3
  {
    ram[a := b0][a + 1 := b1][a + 2 := b2][a + 3 := b3]
  }

  /** Stores a word; nothing outside the four bytes changes and the word reads back. */
  function StoreWord(ram: seq<Byte>, a: int, w: Word): (r: seq<Byte>)
    requires 0 <= a && a + 4 <= |ram|
    ensures SameOutside(ram, r, a, a + 4)
    ensures LoadWord(r, a) == w
  {
    BytesOfWord(w);
    StoreBytes(ram, a, w % 0x100, w / 0x100 % 0x100, w / 0x100 / 0x100 % 0x100, w / 0x100 / 0x100 / 0x100)
  }

  /** A word that does not meet the changed range is unchanged. */
  lemma LoadWordFrame(r0: seq<Byte>, r1: seq<Byte>, lo: int, hi: int, a: int)
    requires SameOutside(r0, r1, lo, hi)
    requires 0 <= a && a + 4 <= |r0|
    requires a + 4 <= lo || hi <= a
    ensures LoadWord(r1, a) == LoadWord(r0, a)
  {
    assert Outside(lo, hi, a) && Outside(lo, hi, a + 1) && Outside(lo, hi, a + 2) && Outside(lo, hi, a + 3);
  }

  lemma SameOutsideWider(r0: seq<Byte>, r1: seq<Byte>, lo: int, hi: int, lo': int, hi': int)
    requires SameOutside(r0, r1, lo, hi)
    requires lo' <= lo && hi <= hi'
    ensures SameOutside(r0, r1, lo', hi')
  {
    forall a | 0 <= a < |r0| && Outside(lo', hi', a) ensures r1[a] == r0[a] {
      assert Outside(lo, hi, a);
    }
  }

  /** The characters of a C string: everything before the first NUL. */
  function CString(str: seq<Byte>): (s: seq<Byte>)
    ensures 0 !in s
  {
    if str == [] || str[0] == 0 then [] else [str[0]] + CString(str[1..])
  }

  lemma {:induction false} CStringIs(s: seq<Byte>)
    requires 0 !in s
    ensures CString(s + [0]) == s
  {
    if s != [] {
      assert (s + [0])[1..] == s[1..] + [0];
      CStringIs(s[1..]);
    }
  }
}
