/** The numerals the kernel prints, and reading them back. Characters are ASCII codes. */
module Numerals {
  import opened Machine

  const ZERO: Byte := 48

  /** Decimal digits, most significant first. */
  function Decimal(n: nat): (s: seq<Byte>)
    ensures s != []
  {
    if n < 10 then [ZERO + n] else Decimal(n / 10) + [ZERO + n % 10]
  }

  /** The number a digit string denotes. */
  function ReadDecimal(s: seq<Byte>): (n: int) {
    if s == [] then 0 else 10 * ReadDecimal(s[..|s| - 1]) + (s[|s| - 1] as int - ZERO as int)
  }

  function Pow10(k: nat): (p: nat)
    ensures p > 0
  {
    if k == 0 then 1 else 10 * Pow10(k - 1)
  }

  /** Printing and reading back is the identity; only digits occur, none of them a leading zero except
      in `0` itself. */
  lemma {:induction false} DecimalRoundTrip(n: nat)
    ensures ReadDecimal(Decimal(n)) == n
    ensures forall i :: 0 <= i < |Decimal(n)| ==> 48 <= Decimal(n)[i] <= 57
    ensures Decimal(n)[0] == 48 ==> n == 0
    ensures n == 0 ==> Decimal(n) == [48]
  {
    var s := Decimal(n);
    if n < 10 {
      assert s[..0] == [];
    } else {
      DecimalRoundTrip(n / 10);
      assert s[..|s| - 1] == Decimal(n / 10);
    }
  }

  /** `n` divided by `base`, `k` times. */
  function Divided(n: nat, base: nat, k: nat): (r: nat)
    requires base > 0
    decreases k
  {
    if k == 0 then n else Divided(n / base, base, k - 1)
  }

  /** The `k`-th digit from the right is that of `n` divided by ten `k` times: `0` is character 48. */
  lemma {:induction false} DecimalDigitAt(n: nat, k: nat)
    requires k < |Decimal(n)|
    ensures Decimal(n)[|Decimal(n)| - 1 - k] == 48 + Divided(n, 10, k) % 10
    decreases k
  {
    if k > 0 {
      DecimalDigitAt(n / 10, k - 1);
    }
  }

  lemma {:induction false} DecimalLength(n: nat, k: nat)
    requires n < Pow10(k) && k > 0
    ensures |Decimal(n)| <= k
  {
    if n >= 10 {
      DecimalLength(n / 10, k - 1);
    }
  }

  /** One turn of the digit loop. */
  lemma DigitStep(n: nat, k: nat)
    requires 0 < n < Pow10(k)
    ensures k > 0 && n / 10 < Pow10(k - 1)
    ensures Decimal(n) == (if n / 10 == 0 then [] else Decimal(n / 10)) + [ZERO + n % 10]
  {
  }

  lemma WordLength(w: Word)
    ensures w < Pow10(10) && |Decimal(w)| <= 10
  {
    assert Pow10(5) == 100000;
    assert Pow10(10) == 100000 * Pow10(5) by {
      assert Pow10(10) == 10 * Pow10(9) == 100 * Pow10(8) == 1000 * Pow10(7);
      assert Pow10(7) == 10 * Pow10(6) == 100 * Pow10(5);
    }
    DecimalLength(w, 10);
  }

  function HexDigit(d: int): (c: Byte)
    requires 0 <= d < 16
  {
    if d < 10 then ZERO + d else 65 + (d - 10)
  }

  function HexValue(c: Byte): (d: int) {
    if c < 65 then c as int - ZERO as int else c as int - 65 + 10
  }

  /** The `k` low hexadecimal digits, most significant first. */
  function Hex(n: nat, k: nat): (s: seq<Byte>)
    ensures |s| == k
    decreases k
  {
    if k == 0 then [] else Hex(n / 16, k - 1) + [HexDigit(n % 16)]
  }

  function ReadHex(s: seq<Byte>): (n: int) {
    if s == [] then 0 else 16 * ReadHex(s[..|s| - 1]) + HexValue(s[|s| - 1])
  }

  function Pow16(k: nat): (p: nat)
    ensures p > 0
  {
    if k == 0 then 1 else 16 * Pow16(k - 1)
  }

  predicate IsHexDigit(c: Byte) {
    48 <= c <= 57 || 65 <= c <= 70
  }

  /** The `i`-th of `k` hexadecimal digits from the right: `0` is character 48 and `A` is 65. */
  lemma {:induction false} HexDigitAt(n: nat, k: nat, i: nat)
    requires i < k
    ensures var d := Divided(n, 16, i) % 16; Hex(n, k)[k - 1 - i] == if d < 10 then 48 + d else 55 + d
    decreases i
  {
    if i > 0 {
      HexDigitAt(n / 16, k - 1, i - 1);
    }
  }

  lemma {:induction false} HexRoundTrip(n: nat, k: nat)
    requires n < Pow16(k)
    ensures ReadHex(Hex(n, k)) == n
    ensures forall i :: 0 <= i < k ==> IsHexDigit(Hex(n, k)[i])
    decreases k
  {
    if k > 0 {
      HexRoundTrip(n / 16, k - 1);
      assert Hex(n, k)[..k - 1] == Hex(n / 16, k - 1);
    }
  }

  /** Exactly eight characters, each `0` to `9` or `A` to `F`, that read back as the number. */
  lemma WordHexRoundTrip(w: Word)
    ensures |Hex(w, 8)| == 8 && ReadHex(Hex(w, 8)) == w
    ensures forall i :: 0 <= i < 8 ==> IsHexDigit(Hex(w, 8)[i])
  {
    assert Pow16(4) == 0x1_0000;
    assert Pow16(8) == 16 * Pow16(7) == 0x100 * Pow16(6) == 0x1000 * Pow16(5) == 0x1_0000 * Pow16(4);
    HexRoundTrip(w, 8);
  }
}
