/**
 * The 8-bit codec of the binary visualizer: a decimal value becomes the
 * pattern of eight bit boxes (index 0 is the most significant box, power 7),
 * and the boxes are read back with the MSB-driven rule of
 * update_decimal_from_bits.
 */
module Codec {

  /** Number of bit boxes (num_bits). */
  const Width: nat := 8

  function Pow2(k: nat): (r: nat)
    ensures r >= 1
  {
    if k == 0 then 1 else 2 * Pow2(k - 1)
  }

  /** `value & 0xFF`: the low byte of a Python integer (two's complement for negatives). */
  function Mask(v: int): (r: int)
    ensures 0 <= r < 256
    ensures 0 <= v < 256 ==> r == v
  {
    v % 256
  }

  /** The two's-complement reading of a byte. */
  function Signed8(u: int): int
  {
    if u >= 128 then u - 256 else u
  }

  function BitChar(b: int): char
  {
    if b == 0 then '0' else '1'
  }

  // ---------------------------------------------------------------------------
  // Arithmetic helpers
  // ---------------------------------------------------------------------------

  lemma MulAwayFromZero(d: int, m: int)
    requires m > 0
    ensures d >= 1 ==> d * m >= m
    ensures d <= -1 ==> d * m <= -m
  {
  }

  lemma DoubleFactor(l: int, b: int, p: int)
    ensures l * (2 * p) + b * p == (2 * l + b) * p
  {
  }

  lemma DivModUnique(a: int, m: int, q: int, r: int)
    requires m > 0 && 0 <= r < m && a == q * m + r
    ensures a / m == q && a % m == r
  {
    var q0, r0 := a / m, a % m;
    assert (q0 - q) * m == r - r0;
    MulAwayFromZero(q0 - q, m);
  }

  lemma MulSplit(h: int, b: int, p: int)
    ensures (2 * h + b) * p == h * (2 * p) + b * p
  {
  }

  lemma ModDouble(a: int, p: int)
    requires a >= 0 && p > 0
    ensures a % (2 * p) == ((a / p) % 2) * p + a % p
  {
    var q, r := a / p, a % p;
    var h, b := q / 2, q % 2;
    assert a == q * p + r;
    assert q == 2 * h + b;
    MulSplit(h, b, p);
    assert b * p == 0 || b * p == p by {
      assert b == 0 || b == 1;
    }
    DivModUnique(a, 2 * p, h, b * p + r);
  }

  lemma DivHalf(u: int, k: nat)
    requires u >= 0
    ensures (u / 2) / Pow2(k) == u / Pow2(k + 1)
  {
    var p := Pow2(k);
    var h := u / 2;
    var q, r2, r1 := h / p, h % p, u % 2;
    assert h == q * p + r2;
    assert u == 2 * h + r1;
    assert 2 * (q * p) == q * (2 * p);
    assert u == q * (2 * p) + (2 * r2 + r1);
    assert Pow2(k + 1) == 2 * p;
    DivModUnique(u, 2 * p, q, 2 * r2 + r1);
  }

  // ---------------------------------------------------------------------------
  // Decimal to bits (update_bits_from_decimal)
  // ---------------------------------------------------------------------------

  /** `f"{u:0{w}b}"` for a `u` that fits in `w` binary digits. */
  function PadBinary(u: int, w: nat): (s: string)
    requires 0 <= u < Pow2(w)
    ensures |s| == w
  {
    if w == 0 then ""
    else
      assert Pow2(w) == 2 * Pow2(w - 1);
      PadBinary(u / 2, w - 1) + [BitChar(u % 2)]
  }

  lemma {:induction false} PadBinaryAt(u: int, w: nat, i: nat)
    requires 0 <= u < Pow2(w) && i < w
    ensures PadBinary(u, w)[i] == BitChar((u / Pow2(w - 1 - i)) % 2)
  {
    if i < w - 1 {
      PadBinaryAt(u / 2, w - 1, i);
      DivHalf(u, w - 2 - i);
    }
  }

  /** The character written in box `i` of the binary string: the bit with power `w-1-i`. */
  lemma PadBinaryDigits(u: int, w: nat)
    requires 0 <= u < Pow2(w)
    ensures forall i | 0 <= i < w :: PadBinary(u, w)[i] == BitChar((u / Pow2(w - 1 - i)) % 2)
  {
    forall i | 0 <= i < w
      ensures PadBinary(u, w)[i] == BitChar((u / Pow2(w - 1 - i)) % 2)
    {
      PadBinaryAt(u, w, i);
    }
  }

  /** The 8-character pattern `f"{value & 0xFF:08b}"` that update_bits_from_decimal writes out. */
  function Pattern(v: int): (s: string)
    ensures |s| == Width
  {
    PadBinary(Mask(v), Width)
  }

  /**
   * The box values update_bits_from_decimal derives from `v`: `int(c)` of each
   * character of the pattern. Box `i` holds bit `7 - i` of `v & 0xFF`.
   */
  function BitsOf(v: int): (bits: seq<int>)
    ensures IsPattern(bits)
  {
    var p := Pattern(v);
    seq(Width, i requires 0 <= i < Width => if p[i] == '1' then 1 else 0)
  }

  /** Every box holds 0 or 1. */
  predicate IsPattern(s: seq<int>)
  {
    |s| == Width && forall i | 0 <= i < Width :: s[i] == 0 || s[i] == 1
  }

  /** Box `i` holds bit `7 - i` of `v & 0xFF`. */
  lemma BitsOfBits(v: int)
    ensures forall i | 0 <= i < Width :: BitsOf(v)[i] == (Mask(v) / Pow2(7 - i)) % 2
  {
    PadBinaryDigits(Mask(v), Width);
  }

  // ---------------------------------------------------------------------------
  // Bits to decimal (update_decimal_from_bits)
  // ---------------------------------------------------------------------------

  /** What box `i` adds to a sum: `2 ** power` when its value is 1. */
  function Weight(s: seq<int>, i: nat): int
    requires |s| == Width && i < Width
  {
    if s[i] == 1 then Pow2(7 - i) else 0
  }

  /** The sum accumulated over boxes `lo .. hi-1`, left to right. */
  function RangeSum(s: seq<int>, lo: nat, hi: nat): int
    requires |s| == Width && lo <= hi <= Width
    decreases hi
  {
    if hi == lo then 0 else RangeSum(s, lo, hi - 1) + Weight(s, hi - 1)
  }

  lemma {:induction false} RangeSumSplit(s: seq<int>, lo: nat, mid: nat, hi: nat)
    requires |s| == Width && lo <= mid <= hi <= Width
    ensures RangeSum(s, lo, hi) == RangeSum(s, lo, mid) + RangeSum(s, mid, hi)
    decreases hi
  {
    if hi > mid {
      RangeSumSplit(s, lo, mid, hi - 1);
    }
  }

  lemma {:induction false} RangeSumBounds(s: seq<int>, lo: nat, hi: nat)
    requires |s| == Width && lo <= hi <= Width
    ensures 0 <= RangeSum(s, lo, hi) <= Pow2(8 - lo) - Pow2(8 - hi)
    decreases hi
  {
    if hi > lo {
      RangeSumBounds(s, lo, hi - 1);
    }
  }

  /**
   * The decimal value update_decimal_from_bits reads from the boxes: with the
   * MSB set, -128 plus the active lower boxes; otherwise the unsigned sum.
   */
  function BitsToDecimal(s: seq<int>): (r: int)
    requires |s| == Width
    ensures -128 <= r <= 127
    ensures r < 0 <==> s[0] == 1
  {
    RangeSumBounds(s, 1, Width);
    RangeSumSplit(s, 0, 1, Width);
    if s[0] == 1 then -128 + RangeSum(s, 1, Width) else RangeSum(s, 0, Width)
  }

  /** The MSB box contributes -128 when set; the other boxes their powers of two. */
  lemma SignPlusRest(s: seq<int>)
    requires |s| == Width
    ensures BitsToDecimal(s) == (if s[0] == 1 then -128 else 0) + RangeSum(s, 1, Width)
  {
    RangeSumSplit(s, 0, 1, Width);
    assert RangeSum(s, 0, 1) == Weight(s, 0);
  }

  lemma WeightOfPattern(v: int, i: nat)
    requires i < Width
    ensures Weight(BitsOf(v), i) == ((Mask(v) / Pow2(7 - i)) % 2) * Pow2(7 - i)
  {
    var b := (Mask(v) / Pow2(7 - i)) % 2;
    BitsOfBits(v);
    assert BitsOf(v)[i] == b;
    assert b == 0 || b == 1;
  }

  lemma AddStep(total: int, low: int, w: int, u: int, m2: int, m: int)
    requires total == low + w && low == u - m2 && m2 == w + m
    ensures total == u - m
  {
  }

  lemma {:induction false} PatternPrefixSum(v: int, k: nat)
    requires k <= Width
    ensures RangeSum(BitsOf(v), 0, k) == Mask(v) - Mask(v) % Pow2(8 - k)
  {
    if k > 0 {
      var s, u, p := BitsOf(v), Mask(v), Pow2(8 - k);
      PatternPrefixSum(v, k - 1);
      assert Pow2(8 - (k - 1)) == 2 * p;
      var low := RangeSum(s, 0, k - 1);
      assert low == u - u % (2 * p);
      WeightOfPattern(v, k - 1);
      var w := Weight(s, k - 1);
      assert w == ((u / p) % 2) * p;
      ModDouble(u, p);
      assert u % (2 * p) == w + u % p;
      AddStep(RangeSum(s, 0, k), low, w, u, u % (2 * p), u % p);
    } else {
      assert Pow2(8 - k) == 256;
      assert Mask(v) % 256 == Mask(v);
    }
  }

  /** Reading the boxes back sums them to `v & 0xFF`. */
  lemma PatternSum(v: int)
    ensures RangeSum(BitsOf(v), 0, Width) == Mask(v)
  {
    PatternPrefixSum(v, Width);
  }

  /**
   * Writing `v` into the boxes and reading them back gives the
   * two's-complement reading of `v & 0xFF`.
   */
  lemma DecodeEncode(v: int)
    ensures BitsToDecimal(BitsOf(v)) == Signed8(Mask(v))
  {
    var s := BitsOf(v);
    PatternSum(v);
    RangeSumSplit(s, 0, 1, Width);
  }

  /**
   * For every value the input accepts: the round trip is exact on [-128, 127]
   * and gives `v - 256` on [128, 255].
   */
  lemma DecodeAfterEncode(v: int)
    requires -128 <= v <= 255
    ensures BitsToDecimal(BitsOf(v)) == (if v <= 127 then v else v - 256)
  {
    DecodeEncode(v);
    if v < 0 {
      DivModUnique(v, 256, -1, v + 256);
    }
  }

  /** The first `k` boxes read as a `k`-digit binary number. */
  function Lead(s: seq<int>, k: nat): int
    requires |s| == Width && k <= Width
  {
    if k == 0 then 0 else 2 * Lead(s, k - 1) + (if s[k - 1] == 1 then 1 else 0)
  }

  lemma {:induction false} LeadScaled(s: seq<int>, k: nat)
    requires |s| == Width && k <= Width
    ensures RangeSum(s, 0, k) == Lead(s, k) * Pow2(8 - k)
  {
    if k > 0 {
      LeadScaled(s, k - 1);
      var p := Pow2(8 - k);
      var l := Lead(s, k - 1);
      var b := if s[k - 1] == 1 then 1 else 0;
      assert Pow2(8 - (k - 1)) == 2 * p;
      assert Weight(s, k - 1) == b * p;
      assert RangeSum(s, 0, k) == l * (2 * p) + b * p;
      DoubleFactor(l, b, p);
    }
  }

  /** The boxes before and including `k` scaled by box `k`'s weight, plus the boxes after it. */
  lemma SplitAtBox(s: seq<int>, k: nat)
    requires |s| == Width && k < Width
    ensures RangeSum(s, 0, Width) == Lead(s, k + 1) * Pow2(7 - k) + RangeSum(s, k + 1, Width)
    ensures 0 <= RangeSum(s, k + 1, Width) < Pow2(7 - k)
  {
    RangeSumSplit(s, 0, k + 1, Width);
    LeadScaled(s, k + 1);
    RangeSumBounds(s, k + 1, Width);
  }

  lemma BitAt(s: seq<int>, k: nat)
    requires IsPattern(s) && k < Width
    ensures (RangeSum(s, 0, Width) / Pow2(7 - k)) % 2 == s[k]
  {
    var l := Lead(s, k + 1);
    SplitAtBox(s, k);
    DivModUnique(RangeSum(s, 0, Width), Pow2(7 - k), l, RangeSum(s, k + 1, Width));
    assert l == 2 * Lead(s, k) + s[k];
  }

  /** Any box pattern, read as a decimal and written back, gives the same boxes. */
  lemma EncodeDecode(s: seq<int>)
    requires IsPattern(s)
    ensures BitsOf(BitsToDecimal(s)) == s
  {
    var d := BitsToDecimal(s);
    var u := RangeSum(s, 0, Width);
    RangeSumSplit(s, 0, 1, Width);
    RangeSumBounds(s, 0, Width);
    if s[0] == 1 {
      assert d == u - 256;
      assert Mask(d) == u by {
        DivModUnique(d, 256, -1, u);
      }
    } else {
      assert d == u;
    }
    BitsOfBits(d);
    forall k | 0 <= k < Width
      ensures BitsOf(d)[k] == s[k]
    {
      BitAt(s, k);
    }
  }

  /** The arithmetic of update_decimal_from_bits, as its loops do it over the boxes. */
  method ReadBits(boxes: array<int>) returns (value: int)
    requires boxes.Length == Width
    ensures value == BitsToDecimal(boxes[..])
  {
    var s := boxes[..];
    if boxes[0] == 1 {
      value := -128;
      var i := 1;
      while i < Width
        invariant 1 <= i <= Width
        invariant value == -128 + RangeSum(s, 1, i)
      {
        if s[i] == 1 {
          value := value + Pow2(7 - i);
        }
        i := i + 1;
      }
    } else {
      value := 0;
      var i := 0;
      while i < Width
        invariant 0 <= i <= Width
        invariant value == RangeSum(s, 0, i)
      {
        if s[i] == 1 {
          value := value + Pow2(7 - i);
        }
        i := i + 1;
      }
    }
  }
}
