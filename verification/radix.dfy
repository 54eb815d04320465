/**
 * Base conversion: convert_to_base (repeated `% base` / `//= base`, each digit
 * looked up in a 16-character alphabet and prepended) and the fixed-base
 * display cards (binary padded to 8 digits, octal and lowercase hex at
 * natural width).
 */
module Radix {
  import opened Codec

  /** The alphabet convert_to_base indexes: only 16 characters. */
  const UpperDigits: string := "0123456789ABCDEF"

  /** The digits Python's `o`, `x` and `b` formats write. */
  const LowerDigits: string := "0123456789abcdef"

  /** Digits of `n` in `base`, most significant first; none for 0. */
  function Digits(n: nat, base: nat): (ds: seq<nat>)
    requires base >= 2
    ensures forall i | 0 <= i < |ds| :: ds[i] < base
    ensures n == 0 <==> ds == []
    ensures n > 0 ==> ds[0] != 0
    decreases n
  {
    if n == 0 then [] else Digits(n / base, base) + [n % base]
  }

  predicate Fits(ds: seq<nat>, alphabet: string)
  {
    forall i | 0 <= i < |ds| :: ds[i] < |alphabet|
  }

  function Spell(ds: seq<nat>, alphabet: string): (s: string)
    requires Fits(ds, alphabet)
    ensures |s| == |ds|
  {
    seq(|ds|, i requires 0 <= i < |ds| => alphabet[ds[i]])
  }

  /** The value of a digit character, case-insensitive as in Python's `int(s, base)`; 36 for a non-digit. */
  function CharValue(c: char): nat
  {
    if '0' <= c <= '9' then c as nat - '0' as nat
    else if 'A' <= c <= 'Z' then c as nat - 'A' as nat + 10
    else if 'a' <= c <= 'z' then c as nat - 'a' as nat + 10
    else 36
  }

  /** Reads a digit string back in `base`, most significant digit first. */
  function ReadInBase(s: string, base: nat): int
  {
    if s == [] then 0 else ReadInBase(s[..|s| - 1], base) * base + CharValue(s[|s| - 1])
  }

  /** The outcome of convert_to_base: its string, or the IndexError of a digit past the alphabet. */
  datatype BaseText = Text(text: string) | IndexError

  /** What convert_to_base(num, base) returns or raises. */
  function BaseTextOf(num: int, base: int): BaseText
    requires base >= 2
  {
    if num == 0 then Text("0")
    else if num < 0 then Text("")
    else if Fits(Digits(num, base), UpperDigits) then Text(Spell(Digits(num, base), UpperDigits))
    else IndexError
  }

  /**
   * The rest of convert_to_base's loop from `n`, with `acc` already written:
   * prepend `digits[n % base]` and continue with `n // base` until `n` is 0.
   */
  function ConvertFrom(n: int, base: int, acc: string): BaseText
    requires base >= 2
    decreases if n > 0 then n else 0
  {
    if n <= 0 then Text(acc)
    else if n % base >= |UpperDigits| then IndexError
    else
      DivShrinks(n, base);
      ConvertFrom(n / base, base, [UpperDigits[n % base]] + acc)
  }

  /**
   * convert_to_base: the loop prepends `digits[num % base]` and floor-divides
   * until `num` reaches 0. A remainder of 16 or more indexes past the alphabet.
   */
  method ConvertToBase(num: int, base: int) returns (r: BaseText)
    requires 2 <= base <= 36
    ensures r == BaseTextOf(num, base)
  {
    if num == 0 {
      return Text("0");
    }
    ConvertFromSpec(num, base);
    var result := "";
    var n := num;
    while n > 0
      invariant ConvertFrom(n, base, result) == ConvertFrom(num, base, "")
      decreases n
    {
      var d := n % base;
      if d >= |UpperDigits| {
        return IndexError;
      }
      DivShrinks(n, base);
      result := [UpperDigits[d]] + result;
      n := n / base;
    }
    r := Text(result);
  }

  lemma {:induction false} ConvertFromDigits(n: nat, base: nat, done: seq<nat>)
    requires base >= 2 && Fits(done, UpperDigits)
    ensures ConvertFrom(n, base, Spell(done, UpperDigits)) ==
      if Fits(Digits(n, base) + done, UpperDigits) then Text(Spell(Digits(n, base) + done, UpperDigits)) else IndexError
    decreases n
  {
    if n == 0 {
      assert Digits(n, base) + done == done;
    } else {
      var d := n % base;
      DigitsShift(n, base, done);
      if d >= |UpperDigits| {
        assert (Digits(n, base) + done)[|Digits(n / base, base)|] == d;
      } else {
        SpellCons(d, done, UpperDigits);
        ConvertFromDigits(n / base, base, [d] + done);
      }
    }
  }

  /** The loop, run from the start, produces what convert_to_base is specified to return. */
  lemma ConvertFromSpec(num: int, base: int)
    requires num != 0 && base >= 2
    ensures ConvertFrom(num, base, "") == BaseTextOf(num, base)
  {
    if num > 0 {
      assert Spell([], UpperDigits) == "";
      ConvertFromDigits(num, base, []);
      assert Digits(num, base) + [] == Digits(num, base);
    }
  }

  lemma UpperDigitValues()
    ensures forall d | 0 <= d < |UpperDigits| :: CharValue(UpperDigits[d]) == d
  {
  }

  lemma SpellSnoc(ds: seq<nat>, d: nat, alphabet: string)
    requires Fits(ds, alphabet) && d < |alphabet|
    ensures Fits(ds + [d], alphabet)
    ensures Spell(ds + [d], alphabet) == Spell(ds, alphabet) + [alphabet[d]]
  {
  }

  lemma SpellCons(d: nat, ds: seq<nat>, alphabet: string)
    requires Fits(ds, alphabet) && d < |alphabet|
    ensures Fits([d] + ds, alphabet)
    ensures Spell([d] + ds, alphabet) == [alphabet[d]] + Spell(ds, alphabet)
  {
  }

  lemma ReadSnoc(s: string, c: char, base: nat)
    ensures ReadInBase(s + [c], base) == ReadInBase(s, base) * base + CharValue(c)
  {
    assert (s + [c])[..|s|] == s;
  }

  lemma DigitsSnoc(n: nat, base: nat)
    requires base >= 2 && n > 0
    ensures Digits(n, base) == Digits(n / base, base) + [n % base]
  {
  }

  lemma DigitsShift(n: nat, base: nat, done: seq<nat>)
    requires base >= 2 && n > 0
    ensures n / base < n
    ensures Digits(n, base) + done == Digits(n / base, base) + ([n % base] + done)
  {
    DigitsSnoc(n, base);
    DivShrinks(n, base);
  }

  lemma DivShrinks(n: nat, base: nat)
    requires base >= 2 && n > 0
    ensures n / base < n
  {
    var q := n / base;
    DivMod(n, base);
    assert q * base == q * 2 + q * (base - 2);
    assert q * (base - 2) >= 0;
  }

  lemma DivMod(n: int, base: int)
    requires base >= 2
    ensures n == (n / base) * base + n % base
  {
  }

  lemma {:induction false} ReadSpelled(n: nat, base: nat)
    requires 2 <= base <= |UpperDigits|
    ensures Fits(Digits(n, base), UpperDigits)
    ensures ReadInBase(Spell(Digits(n, base), UpperDigits), base) == n
    decreases n
  {
    if n > 0 {
      ReadSpelled(n / base, base);
      var ds, d := Digits(n / base, base), n % base;
      DigitsSnoc(n, base);
      DivMod(n, base);
      SpellSnoc(ds, d, UpperDigits);
      ReadSnoc(Spell(ds, UpperDigits), UpperDigits[d], base);
      UpperDigitValues();
    }
  }

  /**
   * For the bases the alphabet covers, a positive value converts without a
   * leading zero, uses only the first `base` characters, and reads back as itself.
   */
  lemma ConvertRoundTrip(num: int, base: int)
    requires num > 0 && 2 <= base <= 16
    ensures BaseTextOf(num, base).Text?
    ensures var t := BaseTextOf(num, base).text;
      && |t| > 0 && t[0] != '0'
      && (forall i | 0 <= i < |t| :: t[i] in UpperDigits[..base])
      && ReadInBase(t, base) == num
  {
    ReadSpelled(num, base);
    var ds := Digits(num, base);
    var t := BaseTextOf(num, base).text;
    forall i | 0 <= i < |t|
      ensures t[i] in UpperDigits[..base]
    {
      assert t[i] == UpperDigits[..base][ds[i]];
    }
    UpperDigitValues();
    assert CharValue(t[0]) != 0;
  }

  /**
   * Past base 16 the lookup can fail: when the first remainder is 16 or more
   * (for example 16 in base 17) convert_to_base raises instead of writing a letter G-Z.
   */
  lemma IndexErrorPastSixteen(num: int, base: int)
    requires 17 <= base <= 36 && num > 0 && num % base >= 16
    ensures BaseTextOf(num, base) == IndexError
  {
    var ds := Digits(num, base);
    assert ds[|ds| - 1] == num % base;
  }

  // ---------------------------------------------------------------------------
  // Display cards (update_all_outputs)
  // ---------------------------------------------------------------------------

  /** Python's `f"{u:o}"`, `f"{u:x}"` and `bin(u)[2:]`: natural width, lowercase digits. */
  function FormatNatural(u: nat, base: nat): (s: string)
    requires 2 <= base <= 16
    ensures |s| > 0
  {
    if u == 0 then "0" else Spell(Digits(u, base), LowerDigits)
  }

  function Zeros(k: nat): (z: string)
    ensures |z| == k && forall i | 0 <= i < k :: z[i] == '0'
  {
    seq(k, i => '0')
  }

  /** Python's `str.zfill(w)` for a string without sign. */
  function ZFill(s: string, w: nat): (z: string)
    ensures |z| == if |s| < w then w else |s|
  {
    if |s| < w then Zeros(w - |s|) + s else s
  }

  function ToLower(s: string): (l: string)
    ensures |l| == |s|
  {
    seq(|s|, i requires 0 <= i < |s| => if 'A' <= s[i] <= 'Z' then (s[i] as int + 32) as char else s[i])
  }

  lemma SpellLower(ds: seq<nat>)
    requires Fits(ds, UpperDigits)
    ensures Fits(ds, LowerDigits)
    ensures Spell(ds, LowerDigits) == ToLower(Spell(ds, UpperDigits))
  {
    var upper := Spell(ds, UpperDigits);
    forall i | 0 <= i < |ds|
      ensures Spell(ds, LowerDigits)[i] == ToLower(upper)[i]
    {
      var d := ds[i];
      assert LowerDigits[d] == ToLower(UpperDigits)[d];
    }
  }

  /** The octal card shows convert_to_base's base-8 string. */
  lemma OctalCard(u: nat)
    ensures FormatNatural(u, 8) == BaseTextOf(u, 8).text
  {
    if u > 0 {
      ReadSpelled(u, 8);
      var ds := Digits(u, 8);
      assert Spell(ds, LowerDigits) == Spell(ds, UpperDigits);
    }
  }

  /** The hex card shows convert_to_base's base-16 string in lowercase. */
  lemma HexCard(u: nat)
    ensures FormatNatural(u, 16) == ToLower(BaseTextOf(u, 16).text)
  {
    if u > 0 {
      ReadSpelled(u, 16);
      SpellLower(Digits(u, 16));
    }
  }

  lemma {:induction false} PadBinaryDigitsSpelled(u: nat, w: nat)
    requires u < Pow2(w)
    ensures Fits(Digits(u, 2), UpperDigits) && |Digits(u, 2)| <= w
    ensures PadBinary(u, w) == Zeros(w - |Digits(u, 2)|) + Spell(Digits(u, 2), UpperDigits)
  {
    if w > 0 {
      assert Pow2(w) == 2 * Pow2(w - 1);
      PadBinaryDigitsSpelled(u / 2, w - 1);
      if u > 0 {
        var ds := Digits(u / 2, 2);
        assert Digits(u, 2) == ds + [u % 2];
        assert Spell(Digits(u, 2), UpperDigits) == Spell(ds, UpperDigits) + [UpperDigits[u % 2]];
        assert UpperDigits[u % 2] == BitChar(u % 2);
      } else {
        assert Zeros(w - 1) + ['0'] == Zeros(w);
      }
    }
  }

  /**
   * The binary card `f"{u:08b}"` (also the pattern written into the boxes) is
   * convert_to_base's base-2 string zero-filled to 8 digits, which is also
   * `bin(u)[2:].zfill(8)`.
   */
  lemma BinaryCardIsFilledConversion(u: int)
    requires 0 <= u < 256
    ensures BaseTextOf(u, 2).Text?
    ensures PadBinary(u, Width) == ZFill(BaseTextOf(u, 2).text, Width)
    ensures PadBinary(u, Width) == ZFill(FormatNatural(u, 2), Width)
  {
    PadBinaryDigitsSpelled(u, Width);
    var ds := Digits(u, 2);
    assert Spell(ds, LowerDigits) == Spell(ds, UpperDigits);
    if u == 0 {
      assert Zeros(7) + "0" == Zeros(8);
    }
  }
}
