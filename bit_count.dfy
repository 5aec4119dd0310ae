/**
  `count_bits_slow` of test_gmpy_popcount.py: the number of '1' characters in
  Python's `bin(n)`, the prefix "0b" (or "-0b" for a negative `n`) followed by
  the binary digits of |n|, most significant first, with `bin(0) == "0b0"`.

  `Popcount` is the independent reference: the sum of the bits of a natural
  number. The lemmas show that the string-based count agrees with it.
 */
module BitCount {

  /** The digit character for a bit. */
  function DigitChar(bit: nat): char
    requires bit < 2
  {
    if bit == 0 then '0' else '1'
  }

  /** The binary digits of `n`, most significant first, without leading zeros
      ("0" for zero). */
  function BinaryDigits(n: nat): (r: string)
    ensures |r| >= 1
    decreases n
  {
    if n < 2 then [DigitChar(n)] else BinaryDigits(n / 2) + [DigitChar(n % 2)]
  }

  /** Python's `bin`: a sign for negative numbers, the prefix "0b", the digits
      of |n|. After the prefix come only binary digits, with no leading zero,
      and they read back as |n|. */
  function Bin(n: int): (r: string)
    ensures var k := if n < 0 then 3 else 2;
      && |r| > k
      && r[..k] == (if n < 0 then "-0b" else "0b")
      && (forall i :: k <= i < |r| ==> r[i] in "01")
      && (n != 0 ==> r[k] == '1')
      && BinaryValue(r[k..]) == (if n < 0 then -n else n)
  {
    var magnitude: nat := if n < 0 then -n else n;
    var prefix := if n < 0 then "-0b" else "0b";
    BinaryDigitsRoundTrip(magnitude);
    assert (prefix + BinaryDigits(magnitude))[|prefix|..] == BinaryDigits(magnitude);
    prefix + BinaryDigits(magnitude)
  }

  /** How many times `c` occurs in `s`: `str.count` with a one-character argument. */
  function Occurrences(s: string, c: char): (r: nat)
    ensures r <= |s|
    ensures r == 0 <==> c !in s
  {
    if s == [] then 0
    else
      assert s == s[..|s| - 1] + [s[|s| - 1]];
      Occurrences(s[..|s| - 1], c) + (if s[|s| - 1] == c then 1 else 0)
  }

  /** Reference population count: the sum of the bits of `n`. */
  function Popcount(n: nat): nat
    decreases n
  {
    if n == 0 then 0 else n % 2 + Popcount(n / 2)
  }

  /** The number a string of binary digits stands for. */
  function BinaryValue(s: string): nat
  {
    if s == [] then 0 else 2 * BinaryValue(s[..|s| - 1]) + (if s[|s| - 1] == '1' then 1 else 0)
  }

  function Pow2(k: nat): nat
  {
    if k == 0 then 1 else 2 * Pow2(k - 1)
  }

  // ---------------------------------------------------------------------------
  // The digits of `bin`

  /** The digits are binary, have no leading zero, and read back as `n`. */
  lemma {:induction false} BinaryDigitsRoundTrip(n: nat)
    ensures forall i :: 0 <= i < |BinaryDigits(n)| ==> BinaryDigits(n)[i] in "01"
    ensures n > 0 ==> BinaryDigits(n)[0] == '1'
    ensures BinaryValue(BinaryDigits(n)) == n
    decreases n
  {
    var d := BinaryDigits(n);
    if n >= 2 {
      BinaryDigitsRoundTrip(n / 2);
      assert d[..|d| - 1] == BinaryDigits(n / 2);
    }
  }

  /** With `k` digits, `n` lies in `[2^(k-1), 2^k)`: the digit count is the bit
      length of a positive `n`. */
  lemma {:induction false} BinaryDigitsLength(n: nat)
    ensures n < Pow2(|BinaryDigits(n)|)
    ensures n > 0 ==> Pow2(|BinaryDigits(n)| - 1) <= n
    decreases n
  {
    if n >= 2 {
      BinaryDigitsLength(n / 2);
    }
  }

  /** Counting in a concatenation adds the counts. */
  lemma {:induction false} OccurrencesAppend(s: string, t: string, c: char)
    ensures Occurrences(s + t, c) == Occurrences(s, c) + Occurrences(t, c)
    decreases |t|
  {
    if t == [] {
      assert s + t == s;
    } else {
      assert (s + t)[..|s + t| - 1] == s + t[..|t| - 1];
      OccurrencesAppend(s, t[..|t| - 1], c);
    }
  }

  /** The '1' digits of `n` are its set bits. */
  lemma {:induction false} OnesAreSetBits(n: nat)
    ensures Occurrences(BinaryDigits(n), '1') == Popcount(n)
    decreases n
  {
    if n >= 2 {
      OnesAreSetBits(n / 2);
      OccurrencesAppend(BinaryDigits(n / 2), [DigitChar(n % 2)], '1');
      assert Occurrences([DigitChar(n % 2)], '1') == n % 2 by {
        assert [DigitChar(n % 2)][..0] == [];
      }
    } else {
      assert [DigitChar(n)][..0] == [];
    }
  }

  // ---------------------------------------------------------------------------
  // The function under test

  /** `bin(n).count("1")`: the population count of |n|, never more than the
      number of binary digits of |n|, and zero for zero. */
  function CountBitsSlow(n: int): (r: nat)
    ensures r == Popcount(if n < 0 then -n else n)
    ensures r <= |BinaryDigits(if n < 0 then -n else n)|
    ensures n == 0 ==> r == 0
  {
    var magnitude: nat := if n < 0 then -n else n;
    var prefix := if n < 0 then "-0b" else "0b";
    assert Bin(n) == prefix + BinaryDigits(magnitude);
    OccurrencesAppend(prefix, BinaryDigits(magnitude), '1');
    assert '1' !in prefix;
    OnesAreSetBits(magnitude);
    Occurrences(Bin(n), '1')
  }
}
