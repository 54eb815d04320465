/**
 * The explanation panel and the active-bits sum label, as structured data:
 * the division-method table (show_division_method), the greedy powers-of-two
 * decomposition (show_powers_method) and the terms of the sum label
 * (update_total_sum_label). The HTML around them is not modelled.
 */
module Explain {
  import opened Codec
  import opened Radix

  // ---------------------------------------------------------------------------
  // Division method
  // ---------------------------------------------------------------------------

  /** One line of the division table: `dividend ÷ 2 = quotient`, remainder `remainder`. */
  datatype Row = Row(dividend: nat, quotient: nat, remainder: nat)

  /** The rows the loop writes while halving `t` down to 0. */
  function Halvings(t: nat): seq<Row>
    decreases t
  {
    if t == 0 then [] else [Row(t, t / 2, t % 2)] + Halvings(t / 2)
  }

  /** The table for a non-negative value: a single `0 ÷ 2` row for 0, else one row per halving. */
  function DivisionRows(v: nat): seq<Row>
  {
    if v == 0 then [Row(0, 0, 0)] else Halvings(v)
  }

  function Remainders(rows: seq<Row>): (rs: seq<nat>)
    ensures |rs| == |rows|
  {
    seq(|rows|, i requires 0 <= i < |rows| => rows[i].remainder)
  }

  function Reverse<T>(s: seq<T>): (r: seq<T>)
    ensures |r| == |s|
  {
    if s == [] then [] else Reverse(s[1..]) + [s[0]]
  }

  // ---------------------------------------------------------------------------
  // Powers-of-two method
  // ---------------------------------------------------------------------------

  /**
   * The powers the loop over `i = k-1 .. 0` picks: `i` is taken, and `2 ** i`
   * subtracted, whenever what remains is at least `2 ** i`.
   */
  function Greedy(rem: int, k: nat): seq<nat>
  {
    if k == 0 then []
    else if rem >= Pow2(k - 1) then [k - 1] + Greedy(rem - Pow2(k - 1), k - 1)
    else Greedy(rem, k - 1)
  }

  /** The sum of `2 ** p` over a list of powers. */
  function PowSum(ps: seq<nat>): nat
  {
    if ps == [] then 0 else Pow2(ps[0]) + PowSum(ps[1..])
  }

  predicate Descending(ps: seq<nat>)
  {
    forall a, b | 0 <= a < b < |ps| :: ps[a] > ps[b]
  }

  // ---------------------------------------------------------------------------
  // What the panel shows
  // ---------------------------------------------------------------------------

  datatype Explanation =
    | Cleared                                                 // the text could not be read as an integer
    | UnsignedOnly(value: int, pattern: string)               // division method, negative value
    | DivisionSteps(value: int, rows: seq<Row>, binary: string)
    | TwosComplement(value: int, unsigned: int)               // powers method, negative value
    | NoPowers                                                // powers method, value 0
    | PowersSum(value: int, powers: seq<nat>, binary: string)

  function DivisionExplanation(v: int): Explanation
  {
    if v < 0 then UnsignedOnly(v, Pattern(v))
    else DivisionSteps(v, DivisionRows(v), FormatNatural(v, 2))
  }

  function PowersExplanation(v: int): Explanation
  {
    if v < 0 then TwosComplement(v, Mask(v))
    else if v == 0 then NoPowers
    else PowersSum(v, Greedy(v, Width), FormatNatural(v, 2))
  }

  /** show_division_method: the negative notice, or the halving table and `bin(v)[2:]`. */
  method ShowDivisionMethod(value: int) returns (e: Explanation)
    ensures e == DivisionExplanation(value)
  {
    if value < 0 {
      return UnsignedOnly(value, Pattern(value));
    }
    var rows: seq<Row> := [];
    if value == 0 {
      rows := rows + [Row(0, 0, 0)];
    }
    var t: nat := value;
    while t > 0
      invariant rows + Halvings(t) == DivisionRows(value)
      decreases t
    {
      var quotient, remainder := t / 2, t % 2;
      rows := rows + [Row(t, quotient, remainder)];
      t := quotient;
    }
    e := DivisionSteps(value, rows, FormatNatural(value, 2));
  }

  /** show_powers_method: the two's-complement notice, the zero case, or the greedy terms. */
  method ShowPowersMethod(value: int) returns (e: Explanation)
    ensures e == PowersExplanation(value)
  {
    if value < 0 {
      return TwosComplement(value, Mask(value));
    }
    if value == 0 {
      return NoPowers;
    }
    var remaining := value;
    var parts: seq<nat> := [];
    var k := Width;
    while k > 0
      invariant 0 <= k <= Width
      invariant parts + Greedy(remaining, k) == Greedy(value, Width)
    {
      var i := k - 1;
      var powerVal := Pow2(i);
      if remaining >= powerVal {
        parts := parts + [i];
        remaining := remaining - powerVal;
      }
      k := k - 1;
    }
    e := PowersSum(value, parts, FormatNatural(value, 2));
  }

  // ---------------------------------------------------------------------------
  // Properties of the division table
  // ---------------------------------------------------------------------------

  lemma {:induction false} HalvingsShape(t: nat)
    requires t > 0
    ensures var rows := Halvings(t);
      && |rows| == |Digits(t, 2)|
      && rows[0].dividend == t
      && rows[|rows| - 1].quotient == 0
      && (forall i | 0 <= i < |rows| :: rows[i].dividend == 2 * rows[i].quotient + rows[i].remainder && rows[i].remainder < 2)
      && (forall i | 0 <= i < |rows| - 1 :: rows[i + 1].dividend == rows[i].quotient)
    decreases t
  {
    if t / 2 > 0 {
      HalvingsShape(t / 2);
    }
    assert Digits(t, 2) == Digits(t / 2, 2) + [t % 2];
  }

  /**
   * The table starts at `v`, each row is a division by 2 (`t == 2q + r`), each
   * row divides the previous quotient, the last quotient is 0, and there is
   * one row per binary digit of `v` (a single row for 0).
   */
  lemma DivisionRowsShape(v: nat)
    ensures var rows := DivisionRows(v);
      && |rows| == (if v == 0 then 1 else |Digits(v, 2)|)
      && rows[0].dividend == v
      && rows[|rows| - 1].quotient == 0
      && (forall i | 0 <= i < |rows| :: rows[i].dividend == 2 * rows[i].quotient + rows[i].remainder && rows[i].remainder < 2)
      && (forall i | 0 <= i < |rows| - 1 :: rows[i + 1].dividend == rows[i].quotient)
  {
    if v > 0 {
      HalvingsShape(v);
    }
  }

  lemma {:induction false} HalvingRemainders(t: nat)
    ensures Reverse(Remainders(Halvings(t))) == Digits(t, 2)
    decreases t
  {
    if t > 0 {
      HalvingRemainders(t / 2);
      var rows := Halvings(t);
      assert Remainders(rows) == [t % 2] + Remainders(Halvings(t / 2));
      assert Remainders(rows)[1..] == Remainders(Halvings(t / 2));
    }
  }

  /**
   * Reading the remainders from the last row to the first gives the binary
   * digits of `v`, which spelled out are the `bin(v)[2:]` the panel prints.
   */
  lemma RemaindersReadBackwards(v: nat)
    ensures Reverse(Remainders(DivisionRows(v))) == (if v == 0 then [0] else Digits(v, 2))
    ensures Fits(Reverse(Remainders(DivisionRows(v))), LowerDigits)
    ensures Spell(Reverse(Remainders(DivisionRows(v))), LowerDigits) == FormatNatural(v, 2)
  {
    HalvingRemainders(v);
    if v == 0 {
      assert Remainders(DivisionRows(0)) == [0];
    }
  }

  // ---------------------------------------------------------------------------
  // Properties of the powers method
  // ---------------------------------------------------------------------------

  lemma {:induction false} GreedyDecomposes(rem: int, k: nat)
    requires 0 <= rem < Pow2(k)
    ensures forall i | 0 <= i < |Greedy(rem, k)| :: Greedy(rem, k)[i] < k
    ensures Descending(Greedy(rem, k))
    ensures PowSum(Greedy(rem, k)) == rem
  {
    if k > 0 {
      var p := Pow2(k - 1);
      if rem >= p {
        GreedyDecomposes(rem - p, k - 1);
        var g := Greedy(rem - p, k - 1);
        assert ([k - 1] + g)[1..] == g;
      } else {
        GreedyDecomposes(rem, k - 1);
      }
    }
  }

  /**
   * For 1..255 the powers method picks a non-empty, strictly descending list
   * of powers in 0..7 whose `2 ** i` add up to the value.
   */
  lemma PowersSumToValue(v: int)
    requires 1 <= v <= 255
    ensures PowersExplanation(v).PowersSum?
    ensures var ps := PowersExplanation(v).powers;
      && |ps| > 0
      && (forall i | 0 <= i < |ps| :: ps[i] < Width)
      && Descending(ps)
      && PowSum(ps) == v
  {
    GreedyDecomposes(v, Width);
  }

  lemma Pow2Add(a: nat, b: nat)
    ensures Pow2(a + b) == Pow2(a) * Pow2(b)
    decreases a
  {
    if a > 0 {
      Pow2Add(a - 1, b);
      assert Pow2(a + b) == 2 * Pow2(a - 1 + b);
    }
  }

  lemma SubDistrib(x: int, c: int, q: int)
    ensures x * q - q * c == (x - c) * q
  {
  }

  lemma DivSubMultiple(a: int, q: int, c: int)
    requires q > 0
    ensures (a - q * c) / q == a / q - c
  {
    var x, r := a / q, a % q;
    assert a == x * q + r;
    SubDistrib(x, c, q);
    DivModUnique(a - q * c, q, x - c, r);
  }

  lemma ParityShift(a: int, q: int, c: int, m: int)
    requires q > 0 && c % 2 == 0 && m == q * c
    ensures ((a - m) / q) % 2 == (a / q) % 2
  {
    DivSubMultiple(a, q, c);
    var x := a / q;
    assert (x - c) % 2 == x % 2;
  }

  lemma EvenPow2(n: nat)
    requires n > 0
    ensures Pow2(n) % 2 == 0
  {
    assert Pow2(n) == 2 * Pow2(n - 1);
  }

  /** Taking `2 ** k` away from a number leaves its bits below `k` as they were. */
  lemma ParityAfterSubtract(rem: int, k: nat, p: nat)
    requires p < k
    ensures ((rem - Pow2(k)) / Pow2(p)) % 2 == (rem / Pow2(p)) % 2
  {
    EvenPow2(k - p);
    Pow2Add(p, k - p);
    assert p + (k - p) == k;
    ParityShift(rem, Pow2(p), Pow2(k - p), Pow2(k));
  }

  lemma GreedyTopBit(rem: int, k: nat)
    requires k > 0 && 0 <= rem < Pow2(k)
    ensures (rem / Pow2(k - 1)) % 2 == (if rem >= Pow2(k - 1) then 1 else 0)
  {
    var top := Pow2(k - 1);
    assert Pow2(k) == 2 * top;
    if rem >= top {
      DivModUnique(rem, top, 1, rem - top);
    } else {
      DivModUnique(rem, top, 0, rem);
    }
  }

  lemma {:induction false} GreedyPicksBits(rem: int, k: nat, p: nat)
    requires 0 <= rem < Pow2(k) && p < k
    ensures p in Greedy(rem, k) <==> (rem / Pow2(p)) % 2 == 1
  {
    var top := Pow2(k - 1);
    assert Pow2(k) == 2 * top;
    GreedyTopBit(rem, k);
    if rem >= top {
      var rest := Greedy(rem - top, k - 1);
      assert Greedy(rem, k) == [k - 1] + rest;
      if p < k - 1 {
        GreedyPicksBits(rem - top, k - 1, p);
        ParityAfterSubtract(rem, k - 1, p);
        assert p in Greedy(rem, k) <==> p in rest;
      }
    } else {
      assert Greedy(rem, k) == Greedy(rem, k - 1);
      if p < k - 1 {
        GreedyPicksBits(rem, k - 1, p);
      } else {
        GreedyDecomposes(rem, k - 1);
      }
    }
  }

  /** The powers the method names are exactly the boxes that light up for `v`. */
  lemma PowersAreActiveBoxes(v: int, p: nat)
    requires 0 <= v <= 255 && p < Width
    ensures p in Greedy(v, Width) <==> BitsOf(v)[7 - p] == 1
  {
    GreedyPicksBits(v, Width, p);
    BitsOfBits(v);
  }

  function Countdown(k: nat): (r: seq<nat>)
    ensures |r| == k
  {
    if k == 0 then [] else [k - 1] + Countdown(k - 1)
  }

  /**
   * A value past 255 (a field still holding, say, "300" when the panel is
   * refreshed) gets every power 7..0, which add up to 255, not to the value.
   */
  lemma {:induction false} GreedySaturates(rem: int, k: nat)
    requires rem >= Pow2(k) - 1
    ensures Greedy(rem, k) == Countdown(k)
    ensures PowSum(Greedy(rem, k)) == Pow2(k) - 1
  {
    if k > 0 {
      assert Pow2(k) == 2 * Pow2(k - 1);
      GreedySaturates(rem - Pow2(k - 1), k - 1);
      assert ([k - 1] + Countdown(k - 1))[1..] == Countdown(k - 1);
    }
  }

  // ---------------------------------------------------------------------------
  // The active-bits sum label (update_total_sum_label)
  // ---------------------------------------------------------------------------

  /** The powers of the active boxes `lo .. hi-1`, in box order (descending powers). */
  function ActivePowers(s: seq<int>, lo: nat, hi: nat): seq<nat>
    requires |s| == Width && lo <= hi <= Width
    decreases hi
  {
    if hi == lo then []
    else ActivePowers(s, lo, hi - 1) + (if s[hi - 1] == 1 then [7 - (hi - 1)] else [])
  }

  /**
   * The label: "Active Bits: 0 = 0" when nothing is listed; otherwise the
   * listed terms (led by `-2**7` when the MSB is set) and the value passed in.
   */
  datatype SumLabel = NoActiveBits | ActiveBits(negativeMsb: bool, powers: seq<nat>, shown: int)

  function SumLabelOf(s: seq<int>, value: int): SumLabel
    requires |s| == Width
  {
    var msb := s[0] == 1;
    var ps := ActivePowers(s, if msb then 1 else 0, Width);
    if !msb && ps == [] then NoActiveBits else ActiveBits(msb, ps, value)
  }

  /** The loops of update_total_sum_label: the listed powers and the running total. */
  method ActiveBitTerms(boxes: array<int>) returns (negativeMsb: bool, powers: seq<nat>, total: int)
    requires boxes.Length == Width
    ensures negativeMsb == (boxes[0] == 1)
    ensures powers == ActivePowers(boxes[..], if negativeMsb then 1 else 0, Width)
    ensures total == BitsToDecimal(boxes[..])
  {
    var s := boxes[..];
    negativeMsb := boxes[0] == 1;
    powers := [];
    var start := 0;
    if negativeMsb {
      total := -128;
      start := 1;
    } else {
      total := 0;
    }
    var i := start;
    while i < Width
      invariant start <= i <= Width
      invariant powers == ActivePowers(s, start, i)
      invariant total == (if negativeMsb then -128 else 0) + RangeSum(s, start, i)
    {
      if s[i] == 1 {
        var power := 7 - i;
        total := total + Pow2(power);
        powers := powers + [power];
      }
      i := i + 1;
    }
  }

  lemma {:induction false} PowSumAppend(xs: seq<nat>, ys: seq<nat>)
    ensures PowSum(xs + ys) == PowSum(xs) + PowSum(ys)
  {
    if xs == [] {
      assert xs + ys == ys;
    } else {
      assert (xs + ys)[0] == xs[0];
      assert (xs + ys)[1..] == xs[1..] + ys;
      PowSumAppend(xs[1..], ys);
    }
  }

  lemma {:induction false} ActivePowersMembers(s: seq<int>, lo: nat, hi: nat)
    requires |s| == Width && lo <= hi <= Width
    ensures forall i | lo <= i < hi :: (7 - i) in ActivePowers(s, lo, hi) <==> s[i] == 1
    decreases hi
  {
    if hi > lo {
      ActivePowersMembers(s, lo, hi - 1);
      ActivePowersRange(s, lo, hi - 1);
      var prev := ActivePowers(s, lo, hi - 1);
      var tail: seq<nat> := if s[hi - 1] == 1 then [7 - (hi - 1)] else [];
      assert ActivePowers(s, lo, hi) == prev + tail;
      assert (7 - (hi - 1)) !in prev;
    }
  }

  lemma {:induction false} ActivePowersRange(s: seq<int>, lo: nat, hi: nat)
    requires |s| == Width && lo <= hi <= Width
    ensures forall j | 0 <= j < |ActivePowers(s, lo, hi)| :: 8 - hi <= ActivePowers(s, lo, hi)[j] <= 7 - lo
    decreases hi
  {
    if hi > lo {
      ActivePowersRange(s, lo, hi - 1);
      var prev := ActivePowers(s, lo, hi - 1);
      var tail: seq<nat> := if s[hi - 1] == 1 then [7 - (hi - 1)] else [];
      assert ActivePowers(s, lo, hi) == prev + tail;
    }
  }

  lemma {:induction false} ActivePowersDescending(s: seq<int>, lo: nat, hi: nat)
    requires |s| == Width && lo <= hi <= Width
    ensures Descending(ActivePowers(s, lo, hi))
    decreases hi
  {
    if hi > lo {
      ActivePowersDescending(s, lo, hi - 1);
      ActivePowersRange(s, lo, hi - 1);
    }
  }

  lemma {:induction false} ActivePowersSum(s: seq<int>, lo: nat, hi: nat)
    requires |s| == Width && lo <= hi <= Width
    ensures PowSum(ActivePowers(s, lo, hi)) == RangeSum(s, lo, hi)
    decreases hi
  {
    if hi > lo {
      ActivePowersSum(s, lo, hi - 1);
      var tail: seq<nat> := if s[hi - 1] == 1 then [7 - (hi - 1)] else [];
      PowSumAppend(ActivePowers(s, lo, hi - 1), tail);
      assert PowSum(tail) == Weight(s, hi - 1);
    }
  }

  /** The label reads "0 = 0" exactly when no box is active. */
  lemma SumLabelEmpty(s: seq<int>, value: int)
    requires |s| == Width
    ensures SumLabelOf(s, value) == NoActiveBits <==> (forall i | 0 <= i < Width :: s[i] != 1)
  {
    var msb := s[0] == 1;
    var ps := ActivePowers(s, 0, Width);
    ActivePowersMembers(s, 0, Width);
    ActivePowersRange(s, 0, Width);
    if !msb && ps == [] {
      forall i | 0 <= i < Width
        ensures s[i] != 1
      {
        assert (7 - i) !in ps;
      }
    }
    if !msb && ps != [] {
      assert (7 - (7 - ps[0])) in ps;
    }
  }

  /**
   * The label lists exactly the active boxes (the MSB as `-2**7` when set), in
   * descending powers, and its terms add up to the value the boxes decode to.
   */
  lemma SumLabelTerms(s: seq<int>, value: int)
    requires |s| == Width && SumLabelOf(s, value).ActiveBits?
    ensures var l := SumLabelOf(s, value);
      && l.shown == value
      && l.negativeMsb == (s[0] == 1)
      && Descending(l.powers)
      && (forall p | 0 <= p < Width :: p in l.powers <==> (s[7 - p] == 1 && (p < 7 || !l.negativeMsb)))
      && (if l.negativeMsb then -128 else 0) + PowSum(l.powers) == BitsToDecimal(s)
  {
    var msb := s[0] == 1;
    var lo := if msb then 1 else 0;
    var ps := ActivePowers(s, lo, Width);
    ActivePowersDescending(s, lo, Width);
    ActivePowersSum(s, lo, Width);
    RangeSumSplit(s, 0, 1, Width);
    ActivePowersMembers(s, lo, Width);
    ActivePowersRange(s, lo, Width);
    forall p | 0 <= p < Width
      ensures p in ps <==> (s[7 - p] == 1 && (p < 7 || !msb))
    {
      if p in ps {
        var j :| 0 <= j < |ps| && ps[j] == p;
      }
    }
  }

  /**
   * After input `v` in [-128, 255] the label shows `v`, but for 128..255 the
   * MSB makes it list `-2**7` and terms that add up to `v - 256`.
   */
  lemma SumLabelAfterInput(v: int)
    requires -128 <= v <= 255 && v != 0
    ensures SumLabelOf(BitsOf(v), v).ActiveBits?
    ensures SumLabelOf(BitsOf(v), v).shown == v
    ensures SumLabelOf(BitsOf(v), v).negativeMsb <==> (v < 0 || v >= 128)
    ensures var l := SumLabelOf(BitsOf(v), v);
      (if l.negativeMsb then -128 else 0) + PowSum(l.powers) == (if v <= 127 then v else v - 256)
  {
    var s := BitsOf(v);
    DecodeAfterEncode(v);
    SumLabelEmpty(s, v);
    if SumLabelOf(s, v) == NoActiveBits {
      EncodeDecodeZero(s);
    }
    SumLabelTerms(s, v);
  }

  lemma EncodeDecodeZero(s: seq<int>)
    requires |s| == Width && forall i | 0 <= i < Width :: s[i] != 1
    ensures BitsToDecimal(s) == 0
  {
    RangeSumZero(s, 0, Width);
  }

  lemma {:induction false} RangeSumZero(s: seq<int>, lo: nat, hi: nat)
    requires |s| == Width && lo <= hi <= Width && forall i | lo <= i < hi :: s[i] != 1
    ensures RangeSum(s, lo, hi) == 0
    decreases hi
  {
    if hi > lo {
      RangeSumZero(s, lo, hi - 1);
    }
  }
}
