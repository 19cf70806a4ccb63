/**
 * Bit-level helpers on 32-bit address words.
 *
 * The calculator relies on a helper module (binutils) and on the address
 * type's AND operator, neither of which is part of this model. The
 * definitions of LeadingOnes, XnorAll, OnesThenZeros and And below are
 * ASSUMPTIONS about what those helpers compute; everything else in this
 * module is the arithmetic needed to reason about them.
 *
 * Bits of a word are listed most significant first: index 0 is bit 31.
 */
module Bits {

  /** 2^32: one past the largest address (also the class table's sentinel). */
  const Limit: nat := 0x1_0000_0000

  /** A 32-bit unsigned value: an address or a mask. */
  type Word = x: nat | x < 0x1_0000_0000

  function Pow2(n: nat): (r: nat)
    ensures r >= 1
  {
    if n == 0 then 1 else 2 * Pow2(n - 1)
  }

  lemma {:induction false} Pow2Add(a: nat, b: nat)
    ensures Pow2(a + b) == Pow2(a) * Pow2(b)
  {
    if a > 0 {
      Pow2Add(a - 1, b);
    }
  }

  lemma {:induction false} Pow2Monotone(a: nat, b: nat)
    requires a <= b
    ensures Pow2(a) <= Pow2(b)
  {
    if a < b {
      Pow2Monotone(a, b - 1);
    }
  }

  lemma Pow2Word()
    ensures Pow2(32) == Limit
  {
    assert Pow2(8) == 256;
    Pow2Add(8, 8);
    assert Pow2(16) == 65536;
    Pow2Add(16, 16);
  }

  /** The powers of two that the class table's bit widths produce. */
  lemma Pow2Values()
    ensures Pow2(7) == 128 && Pow2(8) == 256 && Pow2(14) == 16384 && Pow2(16) == 65536
    ensures Pow2(21) == 2097152 && Pow2(24) == 16777216
  {
    assert Pow2(7) == 128;
    assert Pow2(8) == 256;
    Pow2Add(7, 7);
    Pow2Add(8, 8);
    Pow2Add(7, 14);
    Pow2Add(8, 16);
  }

  // ---------------------------------------------------------------------
  // Division facts used to move between values and their bit prefixes

  lemma {:induction false} MulAtLeast(d: nat, k: nat)
    requires k >= 1
    ensures d * k >= d
  {
    if k > 1 {
      MulAtLeast(d, k - 1);
      assert d * k == d * (k - 1) + d;
    }
  }

  /** Quotient and remainder are the only pair that rebuilds x. */
  lemma DivUnique(x: nat, d: nat, q: nat, r: nat)
    requires d > 0 && x == q * d + r && r < d
    ensures x / d == q && x % d == r
  {
    MulComm(q, d);
    var q' := x / d;
    if q' > q {
      MulAtLeast(d, q' - q);
    } else if q' < q {
      MulAtLeast(d, q - q');
    }
  }

  lemma MulSubOne(a: nat, b: nat)
    requires a >= 1
    ensures (a - 1) * b == a * b - b
  {
  }

  lemma DivMulBound(x: nat, d: nat)
    requires d >= 1
    ensures 0 <= x / d * d <= x
  {
    assert x == x / d * d + x % d;
  }

  lemma MulDistrib(x: int, y: int, b: int)
    ensures x * b + y * b == (x + y) * b
  {
  }

  lemma MulStep(i: int, b: int)
    ensures (i + 1) * b == i * b + b
  {
  }

  /** Multiples of a positive b are at least b apart. */
  lemma MulStrict(b: nat, i: nat, j: nat)
    requires b >= 1 && i < j
    ensures i * b + b <= j * b
  {
    MulAtLeast(b, j - i);
    assert j * b == i * b + (j - i) * b;
  }

  lemma MulMonotone(a: nat, b: nat, c: nat)
    requires b <= c
    ensures a * b <= a * c && b * a <= c * a
  {
    if b < c {
      MulAtLeast(a, c - b);
      assert a * c == a * b + a * (c - b);
    }
  }

  lemma DivDiv(x: nat, a: nat, b: nat)
    requires a > 0 && b > 0
    ensures x / a / b == x / (a * b)
  {
    var q, r := x / a, x % a;
    var q2, r2 := q / b, q % b;
    DivMod(x, a);
    DivMod(q, b);
    DivDivArith(x, a, b, q, r, q2, r2);
    DivUnique(x, a * b, q2, r2 * a + r);
  }

  lemma DivDivArith(x: int, a: int, b: int, q: int, r: int, q2: int, r2: int)
    requires x == q * a + r && q == q2 * b + r2 && 0 <= r < a && 0 <= r2 < b
    ensures x == q2 * (a * b) + (r2 * a + r) && r2 * a + r < a * b
  {
    MulDistrib3(a, b, q2, r2);
    MulMonotone(a, r2, b - 1);
    MulSubOne(b, a);
  }

  lemma MulRegroup(q: int, k: int, i: int, b: int)
    ensures q * (k * b) + i * b == (q * k + i) * b
  {
  }

  lemma MulCancel(x: int, y: int, d: int)
    requires d >= 1 && x * d == y * d
    ensures x == y
  {
  }

  lemma DivMod(x: int, d: int)
    requires d > 0
    ensures x == x / d * d + x % d && 0 <= x % d < d
  {
  }

  lemma MulComm(x: int, y: int)
    ensures x * y == y * x
  {
  }

  lemma MulNonneg(x: nat, y: nat)
    ensures x * y >= 0
  {
  }

  lemma MulDistrib3(a: int, b: int, q: int, r: int)
    ensures a * (b * q + r) == (a * b) * q + a * r
  {
  }

  lemma DivNat(x: nat, d: nat)
    requires d > 0
    ensures x / d >= 0
  {
  }

  lemma DivBound(x: nat, m: nat, d: nat)
    requires x < Pow2(m + d)
    ensures 0 <= x / Pow2(d) < Pow2(m)
  {
    Pow2Add(m, d);
    DivNat(x, Pow2(d));
    var p, q := Pow2(d), x / Pow2(d);
    assert p * q <= x;
    if q >= Pow2(m) {
      MulMonotone(p, Pow2(m), q);
    }
  }

  // ---------------------------------------------------------------------
  // Fixed-width binary representation, most significant bit first

  /** The low `width` bits of x, most significant first. */
  function ToBits(x: nat, width: nat): (s: seq<bool>)
    ensures |s| == width
  {
    if width == 0 then [] else ToBits(x / 2, width - 1) + [x % 2 == 1]
  }

  /** The value of a bit string read most significant bit first. */
  function FromBits(s: seq<bool>): (x: nat)
    ensures x < Pow2(|s|)
  {
    if |s| == 0 then 0
    else 2 * FromBits(s[..|s| - 1]) + (if s[|s| - 1] then 1 else 0)
  }

  lemma {:induction false} FromToBits(x: nat, width: nat)
    requires x < Pow2(width)
    ensures FromBits(ToBits(x, width)) == x
  {
    if width > 0 {
      var s := ToBits(x, width);
      assert s[..width - 1] == ToBits(x / 2, width - 1);
      assert s[width - 1] == (x % 2 == 1);
      FromToBits(x / 2, width - 1);
      assert FromBits(s) == 2 * (x / 2) + (if x % 2 == 1 then 1 else 0);
    }
  }

  lemma {:induction false} ToFromBits(s: seq<bool>)
    ensures ToBits(FromBits(s), |s|) == s
  {
    if |s| > 0 {
      var init := s[..|s| - 1];
      var x := FromBits(s);
      assert x / 2 == FromBits(init);
      ToFromBits(init);
      assert s == init + [s[|s| - 1]];
    }
  }

  /** Two values below 2^width are equal exactly when their bits are. */
  lemma ToBitsInjective(x: nat, y: nat, width: nat)
    requires x < Pow2(width) && y < Pow2(width)
    ensures ToBits(x, width) == ToBits(y, width) <==> x == y
  {
    if ToBits(x, width) == ToBits(y, width) {
      FromToBits(x, width);
      FromToBits(y, width);
    }
  }

  lemma {:induction false} FromBitsAppend(s: seq<bool>, t: seq<bool>)
    ensures FromBits(s + t) == FromBits(s) * Pow2(|t|) + FromBits(t)
  {
    if |t| > 0 {
      var t' := t[..|t| - 1];
      var b := if t[|t| - 1] then 1 else 0;
      var st := s + t;
      assert st[..|st| - 1] == s + t';
      assert st[|st| - 1] == t[|t| - 1];
      var fst' := FromBits(s + t');
      assert FromBits(st) == 2 * fst' + b;
      FromBitsAppend(s, t');
      AppendArith(FromBits(s), Pow2(|t'|), FromBits(t'), b);
    } else {
      assert s + t == s;
    }
  }

  lemma AppendArith(fs: int, p: int, ft: int, b: int)
    ensures 2 * (fs * p + ft) + b == fs * (2 * p) + (2 * ft + b)
  {
  }

  /**
   * The first m of the low m + d bits of x are the low m bits of x / 2^d:
   * a bit prefix is a quotient by a power of two.
   */
  lemma {:induction false} ToBitsPrefix(x: nat, m: nat, d: nat)
    ensures ToBits(x, m + d)[..m] == ToBits(x / Pow2(d), m)
  {
    if d > 0 {
      assert ToBits(x, m + d)[..m] == ToBits(x / 2, m + d - 1)[..m];
      ToBitsPrefix(x / 2, m, d - 1);
      DivDiv(x, 2, Pow2(d - 1));
    }
  }

  /** Bit i of a word (index 0 is bit 31) as an arithmetic expression. */
  lemma BitAt(x: Word, i: nat)
    requires i < 32
    ensures ToBits(x, 32)[i] == (x / Pow2(31 - i) % 2 == 1)
  {
    ToBitsPrefix(x, i + 1, 31 - i);
    assert ToBits(x, 32)[i] == ToBits(x, 32)[..i + 1][i];
  }

  /** Two words agree on their first n bits exactly when they agree after dropping the rest. */
  lemma SamePrefix(x: Word, y: Word, n: nat)
    requires n <= 32
    ensures ToBits(x, 32)[..n] == ToBits(y, 32)[..n] <==> x / Pow2(32 - n) == y / Pow2(32 - n)
  {
    Pow2Word();
    var d := 32 - n;
    var p := Pow2(d);
    var qx, qy := x / p, y / p;
    ToBitsPrefix(x, n, d);
    ToBitsPrefix(y, n, d);
    DivBound(x, n, d);
    DivBound(y, n, d);
    ToBitsInjective(qx, qy, n);
  }

  // ---------------------------------------------------------------------
  // Runs of ones and zeros

  function Ones(n: nat): (s: seq<bool>)
    ensures |s| == n && forall i :: 0 <= i < n ==> s[i]
  {
    seq(n, _ => true)
  }

  function Zeros(n: nat): (s: seq<bool>)
    ensures |s| == n && forall i :: 0 <= i < n ==> !s[i]
  {
    seq(n, _ => false)
  }

  lemma {:induction false} FromBitsOnes(n: nat)
    ensures FromBits(Ones(n)) == Pow2(n) - 1
  {
    if n > 0 {
      assert Ones(n)[..n - 1] == Ones(n - 1);
      FromBitsOnes(n - 1);
    }
  }

  lemma {:induction false} FromBitsZeros(n: nat)
    ensures FromBits(Zeros(n)) == 0
  {
    if n > 0 {
      assert Zeros(n)[..n - 1] == Zeros(n - 1);
      FromBitsZeros(n - 1);
    }
  }

  // ---------------------------------------------------------------------
  // binutils.n1s_then_n0s (assumed)

  /** ASSUMPTION: `ones` one-bits followed by `zeros` zero-bits, read as a number. */
  function OnesThenZeros(ones: nat, zeros: nat): (r: nat)
    ensures r + Pow2(zeros) == Pow2(ones + zeros)
  {
    Pow2Monotone(zeros, ones + zeros);
    Pow2(ones + zeros) - Pow2(zeros)
  }

  /** The bits of n1s_then_n0s are the ones, then the zeros. */
  lemma OnesThenZerosBits(ones: nat, zeros: nat)
    ensures ToBits(OnesThenZeros(ones, zeros), ones + zeros) == Ones(ones) + Zeros(zeros)
  {
    Pow2Add(ones, zeros);
    MulSubOne(Pow2(ones), Pow2(zeros));
    FromBitsAppend(Ones(ones), Zeros(zeros));
    FromBitsOnes(ones);
    FromBitsZeros(zeros);
    ToFromBits(Ones(ones) + Zeros(zeros));
  }

  /** The contiguous mask of n leading one-bits, as n1s_then_n0s(n, 32 - n) builds it. */
  function PrefixMask(n: nat): (m: Word)
    requires n <= 32
    ensures m == Limit - Pow2(32 - n)
  {
    Pow2Word();
    OnesThenZeros(n, 32 - n)
  }

  /** A longer contiguous mask minus a shorter one is a run of ones as long as the difference of their lengths. */
  lemma PrefixMaskDifference(p: nat, n: nat)
    requires p <= n <= 32
    ensures PrefixMask(p) <= PrefixMask(n)
    ensures LeadingOnes(PrefixMask(n) - PrefixMask(p)) == n - p
  {
    Pow2Monotone(32 - n, 32 - p);
    assert PrefixMask(n) - PrefixMask(p) == OnesThenZeros(n - p, 32 - n);
    LeadingOnesOfOnesThenZeros(n - p, 32 - n);
  }

  lemma PrefixMaskBits(n: nat)
    requires n <= 32
    ensures ToBits(PrefixMask(n), 32) == Ones(n) + Zeros(32 - n)
  {
    OnesThenZerosBits(n, 32 - n);
  }

  // ---------------------------------------------------------------------
  // binutils.leading_1s (assumed)

  /** Python's bin(x) without its "0b" prefix (empty for 0). */
  function Binary(x: nat): (s: seq<bool>)
    ensures x > 0 ==> |s| > 0 && s[0]
  {
    if x == 0 then [] else Binary(x / 2) + [x % 2 == 1]
  }

  /** The number of leading true entries of s. */
  function LeadingTrue(s: seq<bool>): (n: nat)
    ensures n <= |s|
    ensures forall i :: 0 <= i < n ==> s[i]
    ensures n < |s| ==> !s[n]
  {
    if |s| == 0 || !s[0] then 0 else 1 + LeadingTrue(s[1..])
  }

  /**
   * ASSUMPTION: binutils.leading_1s(x) counts the leading '1' characters of
   * bin(x), i.e. the run of one-bits that starts at the highest set bit.
   */
  function LeadingOnes(x: nat): (r: nat)
  {
    LeadingTrue(Binary(x))
  }

  /** A value whose top bit within `width` is set has exactly `width` binary digits. */
  lemma {:induction false} BinaryIsToBits(x: nat, width: nat)
    requires width >= 1 && Pow2(width - 1) <= x < Pow2(width)
    ensures Binary(x) == ToBits(x, width)
  {
    if width > 1 {
      BinaryIsToBits(x / 2, width - 1);
    }
  }

  lemma {:induction false} BinaryLength(x: nat, width: nat)
    requires x < Pow2(width)
    ensures |Binary(x)| <= width
  {
    if x > 0 {
      BinaryLength(x / 2, width - 1);
    }
  }

  lemma {:induction false} LeadingTrueOnes(n: nat, s: seq<bool>)
    ensures LeadingTrue(Ones(n) + s) == n + LeadingTrue(s)
  {
    if n > 0 {
      var t := Ones(n) + s;
      assert t[0] && t[1..] == Ones(n - 1) + s;
      LeadingTrueOnes(n - 1, s);
    } else {
      assert Ones(n) + s == s;
    }
  }

  /** The count of ones of `ones` ones followed by `zeros` zeros is `ones`, whatever `zeros`. */
  lemma LeadingOnesOfOnesThenZeros(ones: nat, zeros: nat)
    ensures LeadingOnes(OnesThenZeros(ones, zeros)) == ones
  {
    var x := OnesThenZeros(ones, zeros);
    if ones == 0 {
      assert x == 0;
    } else {
      var w := ones + zeros;
      OnesThenZerosBits(ones, zeros);
      Pow2Monotone(zeros, w - 1);
      assert Pow2(w) == 2 * Pow2(w - 1);
      BinaryIsToBits(x, w);
      LeadingTrueOnes(ones, Zeros(zeros));
    }
  }

  /** On a word whose bit 31 is set, leading_1s counts from bit 31. */
  lemma LeadingOnesTopBit(x: Word)
    requires ToBits(x, 32)[0]
    ensures LeadingOnes(x) == LeadingTrue(ToBits(x, 32))
  {
    BitAt(x, 0);
    Pow2Word();
    BinaryIsToBits(x, 32);
  }

  lemma LeadingOnesOfWord(x: Word)
    ensures LeadingOnes(x) <= 32
  {
    Pow2Word();
    BinaryLength(x, 32);
  }

  // ---------------------------------------------------------------------
  // Bitwise operations on words (assumed)

  /** ASSUMPTION: the address type's `&` is bitwise AND of the two 32-bit values. */
  function And(x: Word, y: Word): (r: Word)
  {
    Pow2Word();
    AndWidth(x, y, 32)
  }

  /** The bitwise AND of the low `width` bits of x and y, built from the least significant bit up. */
  function AndWidth(x: nat, y: nat, width: nat): (r: nat)
    ensures r < Pow2(width)
  {
    if width == 0 then 0
    else 2 * AndWidth(x / 2, y / 2, width - 1) + (if x % 2 == 1 && y % 2 == 1 then 1 else 0)
  }

  lemma {:induction false} AndWidthBits(x: nat, y: nat, width: nat)
    ensures forall i :: 0 <= i < width ==>
      ToBits(AndWidth(x, y, width), width)[i] == (ToBits(x, width)[i] && ToBits(y, width)[i])
  {
    if width > 0 {
      var k := AndWidth(x / 2, y / 2, width - 1);
      var b := if x % 2 == 1 && y % 2 == 1 then 1 else 0;
      DivUnique(AndWidth(x, y, width), 2, k, b);
      AndWidthBits(x / 2, y / 2, width - 1);
      assert ToBits(AndWidth(x, y, width), width) == ToBits(k, width - 1) + [b == 1];
    }
  }

  /** Each bit of x AND y is set exactly when it is set in both x and y. */
  lemma AndBits(x: Word, y: Word)
    ensures forall i :: 0 <= i < 32 ==> ToBits(And(x, y), 32)[i] == (ToBits(x, 32)[i] && ToBits(y, 32)[i])
  {
    AndWidthBits(x, y, 32);
  }

  /** All words of ws have the same bit at index i. */
  predicate Agree(ws: seq<Word>, i: nat)
    requires |ws| >= 1 && i < 32
  {
    forall j :: 0 <= j < |ws| ==> ToBits(ws[j], 32)[i] == ToBits(ws[0], 32)[i]
  }

  /** ASSUMPTION: binutils.xnor_all sets exactly the bits on which all inputs agree. */
  function XnorAll(ws: seq<Word>): (r: Word)
    requires |ws| >= 1
  {
    Pow2Word();
    FromBits(seq(32, i requires 0 <= i < 32 => Agree(ws, i)))
  }

  lemma XnorAllBits(ws: seq<Word>)
    requires |ws| >= 1
    ensures forall i :: 0 <= i < 32 ==> ToBits(XnorAll(ws), 32)[i] == Agree(ws, i)
  {
    ToFromBits(seq(32, i requires 0 <= i < 32 => Agree(ws, i)));
  }

  /** ANDing with a prefix mask keeps the top n bits and clears the rest. */
  lemma AndPrefixMask(x: Word, n: nat)
    requires n <= 32
    ensures And(x, PrefixMask(n)) == x / Pow2(32 - n) * Pow2(32 - n)
  {
    var r := And(x, PrefixMask(n));
    var top := ToBits(x, 32)[..n];
    MaskedBits(x, n);
    Pow2Word();
    FromToBits(r, 32);
    assert r == FromBits(top + Zeros(32 - n));
    FromBitsAppend(top, Zeros(32 - n));
    FromBitsZeros(32 - n);
    PrefixValue(x, n);
  }

  /** The bits of x AND the /n mask: the top n bits of x, then zeros. */
  lemma MaskedBits(x: Word, n: nat)
    requires n <= 32
    ensures ToBits(And(x, PrefixMask(n)), 32) == ToBits(x, 32)[..n] + Zeros(32 - n)
  {
    AndBits(x, PrefixMask(n));
    PrefixMaskBits(n);
  }

  /** The value of the top n bits of a word is its quotient by 2^(32 - n). */
  lemma PrefixValue(x: Word, n: nat)
    requires n <= 32
    ensures FromBits(ToBits(x, 32)[..n]) == x / Pow2(32 - n)
  {
    Pow2Word();
    ToBitsPrefix(x, n, 32 - n);
    DivBound(x, n, 32 - n);
    FromToBits(x / Pow2(32 - n), n);
  }

  /** An address x that lies o places into a block starting at the multiple q * 2^(32 - n) lies in that block's /n prefix. */
  lemma InBlock(x: Word, q: nat, o: nat, n: nat)
    requires n <= 32 && o < Pow2(32 - n) && x == q * Pow2(32 - n) + o
    ensures And(x, PrefixMask(n)) == x - o
  {
    AndPrefixMask(x, n);
    DivUnique(x, Pow2(32 - n), q, o);
  }
}
