/**
 * The binary visualizer tab (BinaryVisualizerTab) as a class: eight bit boxes
 * held in an array, the decimal input, the display widgets and the quiz
 * counters, with one method per handler. Each handler is specified by a
 * function on a snapshot of the tab (Screen), about which the properties are
 * proved.
 */
module Visualizer {
  import opened Wrappers
  import opened Codec
  import opened Radix
  import opened Explain

  /** The decimal input's text, as `int(...)` sees it. */
  datatype Entry = Empty | Number(value: int) | NotANumber

  /** What the widgets update_all_outputs writes are showing. */
  datatype Display = Display(
    binary: string, octal: string, hex: string, custom: string,
    explanation: Explanation, sum: SumLabel)

  /** The input text, the invert button, the boxes and the widgets. */
  datatype Screen = Screen(entry: Entry, invertEnabled: bool, boxes: seq<int>, display: Display)

  /** The widgets after update_all_outputs, and whether it raised. */
  datatype Outputs = Outputs(display: Display, raised: bool)

  /** The screen after a handler, and whether it raised. */
  datatype Step = Step(screen: Screen, raised: bool)

  /**
   * What update_explanation shows for the current text: an empty field reads
   * as 0, a text `int` rejects clears the panel.
   */
  function ExplanationFor(e: Entry, division: bool): Explanation
  {
    match e
    case Empty => if division then DivisionExplanation(0) else PowersExplanation(0)
    case Number(v) => if division then DivisionExplanation(v) else PowersExplanation(v)
    case NotANumber => Cleared
  }

  /** Whether convert_to_base raises for the custom card. */
  predicate ConvertFails(value: int, base: int)
    requires base >= 2
  {
    BaseTextOf(Mask(value), base).IndexError?
  }

  /**
   * update_all_outputs(value): the binary, octal and hex cards from
   * `value & 0xFF`; then the custom card, the explanation and the sum label,
   * unless convert_to_base raises first.
   */
  function Refresh(d: Display, value: int, base: int, e: Entry, division: bool, boxes: seq<int>): Outputs
    requires base >= 2 && |boxes| == Width
  {
    var cards := d.(binary := Pattern(value), octal := FormatNatural(Mask(value), 8), hex := FormatNatural(Mask(value), 16));
    match BaseTextOf(Mask(value), base)
    case IndexError => Outputs(cards, true)
    case Text(t) => Outputs(cards.(custom := t, explanation := ExplanationFor(e, division), sum := SumLabelOf(boxes, value)), false)
  }

  /** on_decimal_changed with the new text `e`. */
  function DecimalChanged(s: Screen, e: Entry, base: int, division: bool): Step
    requires base >= 2 && |s.boxes| == Width
  {
    match e
    case Empty =>
      var out := Refresh(s.display, 0, base, e, division, BitsOf(0));
      Step(Screen(e, true, BitsOf(0), out.display), out.raised)
    case Number(v) =>
      if -128 <= v <= 255 then
        var out := Refresh(s.display, v, base, e, division, BitsOf(v));
        Step(Screen(e, if out.raised then s.invertEnabled else v != -128, BitsOf(v), out.display), out.raised)
      else Step(s.(entry := e, invertEnabled := false), false)
    case NotANumber => Step(s.(entry := e, invertEnabled := false), false)
  }

  /** update_decimal_from_bits in manual mode: the boxes' value goes into the input and the outputs. */
  function ReadBack(s: Screen, base: int, division: bool): Step
    requires base >= 2 && |s.boxes| == Width
  {
    var v := BitsToDecimal(s.boxes);
    var out := Refresh(s.display, v, base, Number(v), division, s.boxes);
    Step(s.(entry := Number(v), display := out.display), out.raised)
  }

  /** The boxes after clicking the box of `power` (box `7 - power`); no box has any other power. */
  function Flip(s: seq<int>, power: int): (t: seq<int>)
    requires |s| == Width
    ensures |t| == Width
  {
    if 0 <= power < Width then s[7 - power := 1 - s[7 - power]] else s
  }

  class Tab {
    /** bit_boxes[i].value; box `i` has power `7 - i`. */
    const bits: array<int>
    /** Manual Bit Edit Mode; every BitBox's own flag follows it. */
    var manualMode: bool
    var invertEnabled: bool
    var entry: Entry
    /** The custom card's base selector. */
    var customBase: int
    /** Which radio button is checked: division or powers of two. */
    var divisionMode: bool
    var display: Display

    var quizScore: nat
    var quizTotal: nat
    var quizAnswer: int
    /** The binary string in "What is ... in decimal?". */
    var quizQuestion: string
    var quizSubmitEnabled: bool

    predicate Valid()
      reads this, bits
    {
      && bits.Length == Width
      && IsPattern(bits[..])
      && 2 <= customBase <= 36
      && quizScore <= quizTotal
      && 0 <= quizAnswer <= 255
    }

    function Current(): Screen
      reads this, bits
    {
      Screen(entry, invertEnabled, bits[..], display)
    }

    /** __init__ and init_ui: the boxes at 0, base 10, powers method, then the input set to "0". */
    constructor ()
      ensures Valid() && fresh(bits)
      ensures Current() == Screen(Number(0), true, BitsOf(0), Display("00000000", "0", "0", "0", NoPowers, NoActiveBits))
      ensures !manualMode && customBase == 10 && !divisionMode
      ensures quizScore == 0 && quizTotal == 0 && quizAnswer == 0 && quizQuestion == "1101"
    {
      bits := new int[Width](i => 0);
      manualMode := false;
      invertEnabled := true;
      entry := Empty;
      customBase := 10;
      divisionMode := false;
      display := Display("0", "0", "0", "0", Cleared, NoActiveBits);
      quizScore, quizTotal, quizAnswer := 0, 0, 0;
      quizQuestion := "1101";
      quizSubmitEnabled := true;
      new;
      assert IsPattern(bits[..]);
      ShowInitialValue();
    }

    /**
     * The end of init_ui: the input is set to "0", which runs
     * on_decimal_changed, and then update_all_outputs(0) runs once more.
     */
    method ShowInitialValue()
      requires Valid() && customBase == 10 && !divisionMode
      modifies this`entry, this`invertEnabled, this`display, bits
      ensures Valid()
      ensures Current() == Screen(Number(0), true, BitsOf(0), Display("00000000", "0", "0", "0", NoPowers, NoActiveBits))
    {
      var raised := OnDecimalChanged(Number(0));
      assert entry == Number(0) && invertEnabled && bits[..] == BitsOf(0);
      var shown := display;
      StartupDisplay(shown);
      raised := UpdateAllOutputs(0);
    }

    /** update_bits_from_decimal: each box takes `int(c)` of its character of the 8-bit pattern. */
    method UpdateBitsFromDecimal(value: int)
      requires Valid()
      modifies bits
      ensures Valid()
      ensures bits[..] == BitsOf(value)
    {
      var binaryStr := Pattern(value);
      var i := 0;
      while i < Width
        invariant 0 <= i <= Width
        invariant forall j | 0 <= j < i :: bits[j] == BitsOf(value)[j]
        invariant forall j | i <= j < Width :: bits[j] == old(bits[j])
      {
        var bitValue := if binaryStr[i] == '1' then 1 else 0;
        if bits[i] != bitValue {
          bits[i] := bitValue;
        }
        i := i + 1;
      }
      assert bits[..] == BitsOf(value);
    }

    /** update_explanation: re-reads the input text and picks the checked method. */
    method UpdateExplanation()
      modifies this`display
      ensures display == old(display).(explanation := ExplanationFor(entry, divisionMode))
    {
      var e: Explanation;
      match entry {
        case NotANumber =>
          e := Cleared;
        case Empty =>
          if divisionMode {
            e := ShowDivisionMethod(0);
          } else {
            e := ShowPowersMethod(0);
          }
        case Number(v) =>
          if divisionMode {
            e := ShowDivisionMethod(v);
          } else {
            e := ShowPowersMethod(v);
          }
      }
      display := display.(explanation := e);
    }

    /** update_total_sum_label: the active boxes' terms, followed by `value` as given. */
    method UpdateTotalSumLabel(value: int)
      requires Valid()
      modifies this`display
      ensures display == old(display).(sum := SumLabelOf(bits[..], value))
    {
      var negativeMsb, powers, total := ActiveBitTerms(bits);
      if !negativeMsb && powers == [] {
        display := display.(sum := NoActiveBits);
      } else {
        display := display.(sum := ActiveBits(negativeMsb, powers, value));
      }
    }

    /** update_all_outputs. */
    method UpdateAllOutputs(value: int) returns (raised: bool)
      requires Valid()
      modifies this`display
      ensures Valid()
      ensures Outputs(display, raised) == Refresh(old(display), value, customBase, entry, divisionMode, bits[..])
    {
      var unsigned := Mask(value);
      display := display.(binary := PadBinary(unsigned, Width), octal := FormatNatural(unsigned, 8), hex := FormatNatural(unsigned, 16));
      var converted := ConvertToBase(unsigned, customBase);
      if converted.IndexError? {
        return true;
      }
      raised := false;
      display := display.(custom := converted.text);
      UpdateExplanation();
      UpdateTotalSumLabel(value);
    }

    /** on_decimal_changed: empty, in [-128, 255], or refused. */
    method OnDecimalChanged(e: Entry) returns (raised: bool)
      requires Valid()
      modifies this`entry, this`invertEnabled, this`display, bits
      ensures Valid()
      ensures Step(Current(), raised) == DecimalChanged(old(Current()), e, customBase, divisionMode)
    {
      entry := e;
      raised := false;
      match e {
        case Empty =>
          invertEnabled := true;
          UpdateBitsFromDecimal(0);
          raised := UpdateAllOutputs(0);
        case Number(v) =>
          if -128 <= v <= 255 {
            UpdateBitsFromDecimal(v);
            raised := UpdateAllOutputs(v);
            if !raised {
              invertEnabled := v != -128;
            }
          } else {
            invertEnabled := false;
          }
        case NotANumber =>
          invertEnabled := false;
      }
    }

    /**
     * update_decimal_from_bits: in manual mode, reads the boxes, writes the
     * value into the input without re-triggering on_decimal_changed, and
     * refreshes the outputs.
     */
    method UpdateDecimalFromBits() returns (raised: bool)
      requires Valid()
      modifies this`entry, this`display
      ensures Valid()
      ensures Step(Current(), raised) == if manualMode then ReadBack(old(Current()), customBase, divisionMode) else Step(old(Current()), false)
    {
      if !manualMode {
        return false;
      }
      var currentVal := ReadBits(bits);
      entry := Number(currentVal);
      raised := UpdateAllOutputs(currentVal);
    }

    /** toggle_manual_mode: the tab's flag and every box's flag. */
    method ToggleManualMode(state: bool)
      modifies this`manualMode
      ensures manualMode == state
    {
      manualMode := state;
    }

    /** BitBox.toggle for box `i`: flips its value only in manual mode. */
    method ToggleBox(i: int)
      requires Valid() && 0 <= i < Width
      modifies bits
      ensures Valid()
      ensures bits[..] == if manualMode then old(bits[..])[i := 1 - old(bits[i])] else old(bits[..])
    {
      if manualMode {
        bits[i] := 1 - bits[i];
      }
    }

    /**
     * The search loop of on_bit_clicked: the first box whose power is `power`
     * is toggled; a power no box has toggles nothing.
     */
    method ToggleBoxOfPower(power: int)
      requires Valid() && manualMode
      modifies bits
      ensures Valid()
      ensures bits[..] == Flip(old(bits[..]), power)
    {
      var i := 0;
      while i < Width
        invariant 0 <= i <= Width
        invariant power > 7 || power <= 7 - i
        invariant bits[..] == old(bits[..])
      {
        if 7 - i == power {
          ToggleBox(i);
          return;
        }
        i := i + 1;
      }
    }

    /** on_bit_clicked: in manual mode, toggles the box of `power` and re-reads the boxes. */
    method OnBitClicked(power: int) returns (raised: bool)
      requires Valid()
      modifies bits, this`entry, this`display
      ensures Valid()
      ensures Step(Current(), raised) ==
        if manualMode then ReadBack(old(Current()).(boxes := Flip(old(bits[..]), power)), customBase, divisionMode)
        else Step(old(Current()), false)
    {
      if !manualMode {
        return false;
      }
      ToggleBoxOfPower(power);
      assert Current() == old(Current()).(boxes := Flip(old(bits[..]), power));
      raised := UpdateDecimalFromBits();
    }

    /**
     * invert_sign, the invert button's slot (a disabled button emits no click):
     * puts `-value` into the input, which runs on_decimal_changed with the new
     * text. A text that is exactly "0" stays "0", so the text does not change
     * and no handler runs; an empty or non-numeric text is only logged.
     */
    method InvertSign() returns (raised: bool)
      requires Valid() && invertEnabled
      modifies this`entry, this`invertEnabled, this`display, bits
      ensures Valid()
      ensures Step(Current(), raised) ==
        if old(entry).Number? && old(entry).value != 0
        then DecimalChanged(old(Current()), Number(-old(entry).value), customBase, divisionMode)
        else Step(old(Current()), false)
    {
      raised := false;
      if entry.Number? && entry.value != 0 {
        raised := OnDecimalChanged(Number(-entry.value));
      }
    }

    /**
     * The base selector's valueChanged, emitted only when the base changes: it
     * calls update_all_outputs with the new base as the value.
     */
    method SelectBase(base: int) returns (raised: bool)
      requires Valid() && 2 <= base <= 36 && base != customBase
      modifies this`customBase, this`display
      ensures Valid()
      ensures customBase == base
      ensures Outputs(display, raised) == Refresh(old(display), base, base, entry, divisionMode, bits[..])
    {
      customBase := base;
      raised := UpdateAllOutputs(base);
    }

    /** A click on either radio button: update_explanation with the new choice. */
    method SelectExplanationMode(division: bool)
      modifies this`divisionMode, this`display
      ensures divisionMode == division
      ensures display == old(display).(explanation := ExplanationFor(entry, division))
    {
      divisionMode := division;
      UpdateExplanation();
    }

    /** start_quiz, with the random draw passed in. */
    method StartQuiz(answer: int)
      requires Valid() && 0 <= answer <= 255
      modifies this`quizAnswer, this`quizQuestion, this`quizSubmitEnabled
      ensures Valid()
      ensures quizAnswer == answer && quizSubmitEnabled
      ensures quizQuestion == ZFill(FormatNatural(answer, 2), Width)
    {
      quizAnswer := answer;
      quizQuestion := ZFill(FormatNatural(answer, 2), Width);
      quizSubmitEnabled := true;
    }

    /**
     * check_quiz_answer, the submit button's slot (a disabled button emits no
     * click), with `int(...)` of the typed answer passed in (None when it raises).
     */
    method CheckQuizAnswer(typed: Option<int>)
      requires Valid() && quizSubmitEnabled
      modifies this`quizScore, this`quizTotal, this`quizSubmitEnabled
      ensures Valid()
      ensures typed.None? ==> quizScore == old(quizScore) && quizTotal == old(quizTotal) && quizSubmitEnabled == old(quizSubmitEnabled)
      ensures typed.Some? ==>
        && quizTotal == old(quizTotal) + 1
        && quizScore == old(quizScore) + (if typed.value == quizAnswer then 1 else 0)
        && !quizSubmitEnabled
    {
      if typed.Some? {
        quizTotal := quizTotal + 1;
        if typed.value == quizAnswer {
          quizScore := quizScore + 1;
        }
        quizSubmitEnabled := false;
      }
    }
  }

  // ---------------------------------------------------------------------------
  // Properties of the handlers' specifications
  // ---------------------------------------------------------------------------

  /** The screen the tab starts with: every card at 0, no powers, no active bits. */
  lemma StartupDisplay(d: Display)
    ensures Refresh(d, 0, 10, Number(0), false, BitsOf(0)) == Outputs(Display("00000000", "0", "0", "0", NoPowers, NoActiveBits), false)
  {
    assert BitsOf(0) == [0, 0, 0, 0, 0, 0, 0, 0];
    assert Pattern(0) == "00000000";
  }

  /**
   * The three fixed cards show convert_to_base's base-2 string zero-filled to
   * 8 digits, its base-8 string and its base-16 string in lowercase; the
   * rest of the display changes exactly when the conversion does not raise.
   */
  lemma RefreshCards(d: Display, value: int, base: int, e: Entry, division: bool, boxes: seq<int>)
    requires 2 <= base && |boxes| == Width
    ensures var out := Refresh(d, value, base, e, division, boxes);
      && out.display.binary == ZFill(BaseTextOf(Mask(value), 2).text, Width)
      && out.display.octal == BaseTextOf(Mask(value), 8).text
      && out.display.hex == ToLower(BaseTextOf(Mask(value), 16).text)
      && (out.raised <==> ConvertFails(value, base))
      && (out.raised ==> out.display.custom == d.custom && out.display.explanation == d.explanation && out.display.sum == d.sum)
  {
    BinaryCardIsFilledConversion(Mask(value));
    OctalCard(Mask(value));
    HexCard(Mask(value));
  }

  /** For the bases 2..16 the custom card never raises. */
  lemma ConvertNeverFailsUpToSixteen(value: int, base: int)
    requires 2 <= base <= 16
    ensures !ConvertFails(value, base)
  {
    if Mask(value) > 0 {
      ConvertRoundTrip(Mask(value), base);
    }
  }

  /**
   * Past base 16 the custom card raises once a remainder is 16 or more: the
   * input 16 in base 17, or -1 (pattern 255, last digit 21) in base 26.
   */
  lemma ConvertFailsExample()
    ensures ConvertFails(16, 17)
    ensures ConvertFails(-1, 26)
  {
    IndexErrorPastSixteen(16, 17);
    IndexErrorPastSixteen(255, 26);
  }

  /**
   * An accepted input sets the boxes to its 8-bit pattern, which reads back as
   * the input on [-128, 127] and as `v - 256` above; with a base the custom
   * card can spell, nothing raises, invert is enabled unless `v` is -128, and
   * the sum label shows `v`.
   */
  lemma AcceptedInput(s: Screen, v: int, base: int, division: bool)
    requires |s.boxes| == Width && 2 <= base <= 16 && -128 <= v <= 255
    ensures var r := DecimalChanged(s, Number(v), base, division);
      && !r.raised
      && r.screen.entry == Number(v)
      && r.screen.boxes == BitsOf(v)
      && BitsToDecimal(r.screen.boxes) == (if v <= 127 then v else v - 256)
      && r.screen.invertEnabled == (v != -128)
      && r.screen.display.binary == Pattern(v)
      && r.screen.display.sum == SumLabelOf(BitsOf(v), v)
  {
    ConvertNeverFailsUpToSixteen(v, base);
    DecodeAfterEncode(v);
  }

  /**
   * An emptied input behaves as the value 0: the same boxes, display and
   * enabled invert button, with only the entry left empty.
   */
  lemma EmptyActsAsZero(s: Screen, base: int, division: bool)
    requires |s.boxes| == Width && 2 <= base
    ensures var r := DecimalChanged(s, Number(0), base, division);
      && DecimalChanged(s, Empty, base, division) == r.(screen := r.screen.(entry := Empty))
      && !r.raised && r.screen.invertEnabled && r.screen.boxes == BitsOf(0)
  {
  }

  /** Text outside [-128, 255] or not a number changes nothing but the entry and disables invert. */
  lemma RefusedInput(s: Screen, e: Entry, base: int, division: bool)
    requires |s.boxes| == Width && 2 <= base
    requires e.NotANumber? || (e.Number? && !(-128 <= e.value <= 255))
    ensures var r := DecimalChanged(s, e, base, division);
      && !r.raised && !r.screen.invertEnabled
      && r.screen.boxes == s.boxes && r.screen.display == s.display
  {
  }

  /**
   * Invert is enabled after 129..255, yet the negated text is refused: the
   * boxes keep the pattern of `v` and the button is disabled.
   */
  lemma InvertHighByteRefused(s: Screen, v: int, base: int, division: bool)
    requires |s.boxes| == Width && 2 <= base <= 16 && 129 <= v <= 255
    ensures var first := DecimalChanged(s, Number(v), base, division).screen;
      && first.invertEnabled
      && var second := DecimalChanged(first, Number(-v), base, division);
      && !second.screen.invertEnabled
      && second.screen.boxes == BitsOf(v)
  {
    AcceptedInput(s, v, base, division);
  }

  /**
   * For -127..127 inverting twice restores the input and the boxes, the
   * boxes after one inversion read as `-v`, and the invert button stays
   * enabled after each inversion.
   */
  lemma InvertTwice(s: Screen, v: int, base: int, division: bool)
    requires |s.boxes| == Width && 2 <= base <= 16 && -127 <= v <= 127
    ensures var once := DecimalChanged(s, Number(-v), base, division).screen;
      && BitsToDecimal(once.boxes) == -v && once.invertEnabled
      && var twice := DecimalChanged(once, Number(v), base, division).screen;
      && twice.entry == Number(v) && twice.boxes == BitsOf(v) && BitsToDecimal(twice.boxes) == v
      && twice.invertEnabled
  {
    AcceptedInput(s, -v, base, division);
    var once := DecimalChanged(s, Number(-v), base, division).screen;
    AcceptedInput(once, v, base, division);
  }

  /**
   * A manual edit writes into the input a value the input accepts, and typing
   * that value back sets the same boxes.
   */
  lemma ManualEditRoundTrip(s: Screen, base: int, division: bool)
    requires IsPattern(s.boxes) && 2 <= base
    ensures var r := ReadBack(s, base, division);
      && r.screen.entry.Number?
      && -128 <= r.screen.entry.value <= 127
      && r.screen.boxes == s.boxes
      && DecimalChanged(r.screen, r.screen.entry, base, division).screen.boxes == s.boxes
  {
    EncodeDecode(s.boxes);
  }

  /** Clicking the same box twice restores the boxes. */
  lemma FlipTwice(s: seq<int>, power: int)
    requires IsPattern(s)
    ensures IsPattern(Flip(s, power))
    ensures Flip(Flip(s, power), power) == s
  {
  }

  lemma {:induction false} RangeSumUpdate(s: seq<int>, k: nat, b: int, lo: nat, hi: nat)
    requires |s| == Width && k < Width && lo <= hi <= Width
    ensures RangeSum(s[k := b], lo, hi) == RangeSum(s, lo, hi) + (if lo <= k < hi then Weight(s[k := b], k) - Weight(s, k) else 0)
    decreases hi
  {
    if hi > lo {
      RangeSumUpdate(s, k, b, lo, hi - 1);
    }
  }

  /**
   * What a click on the box of `power` adds to the boxes' value: `2 ** p` up
   * or down for powers 0..6, and 128 the other way for the MSB, whose weight
   * is -128.
   */
  function BoxDelta(s: seq<int>, power: int): int
    requires |s| == Width && 0 <= power < Width
  {
    if power == 7 then (if s[0] == 1 then 128 else -128)
    else (if s[7 - power] == 1 then -(Pow2(power) as int) else Pow2(power))
  }

  /**
   * Flipping a box moves the value the boxes read as by that box's weight,
   * in the direction of the flip.
   */
  lemma FlipDelta(s: seq<int>, power: int)
    requires IsPattern(s) && 0 <= power < Width
    ensures BitsToDecimal(Flip(s, power)) == BitsToDecimal(s) + BoxDelta(s, power)
  {
    if power == 7 {
      FlipSignBox(s);
    } else {
      FlipLowerBox(s, power);
    }
  }

  lemma {:induction false} RangeSumPastUpdate(s: seq<int>, k: nat, b: int, lo: nat, hi: nat)
    requires |s| == Width && k < lo <= hi <= Width
    ensures RangeSum(s[k := b], lo, hi) == RangeSum(s, lo, hi)
    decreases hi
  {
    if hi > lo {
      RangeSumPastUpdate(s, k, b, lo, hi - 1);
      assert s[k := b][hi - 1] == s[hi - 1];
      assert Weight(s[k := b], hi - 1) == Weight(s, hi - 1);
    }
  }

  lemma FlipSignBox(s: seq<int>)
    requires IsPattern(s)
    ensures BitsToDecimal(Flip(s, 7)) == BitsToDecimal(s) + BoxDelta(s, 7)
  {
    var t := s[0 := 1 - s[0]];
    assert Flip(s, 7) == t;
    RangeSumPastUpdate(s, 0, 1 - s[0], 1, Width);
    SignPlusRest(s);
    SignPlusRest(t);
  }

  lemma FlipLowerBox(s: seq<int>, power: nat)
    requires IsPattern(s) && power < 7
    ensures BitsToDecimal(Flip(s, power)) == BitsToDecimal(s) + BoxDelta(s, power)
  {
    var k := 7 - power;
    var t := s[k := 1 - s[k]];
    assert Flip(s, power) == t;
    assert Pow2(7 - k) == Pow2(power);
    RangeSumUpdate(s, k, 1 - s[k], 1, Width);
    SignPlusRest(s);
    SignPlusRest(t);
    assert t[0] == s[0];
    assert BoxDelta(s, power) == Weight(t, k) - Weight(s, k) by {
      assert t[k] == 1 - s[k];
    }
  }

  /** After a click in manual mode the input holds the old value moved by the clicked box's weight. */
  lemma ClickMovesValue(s: Screen, power: int, base: int, division: bool)
    requires IsPattern(s.boxes) && 0 <= power < Width && 2 <= base
    ensures var r := ReadBack(s.(boxes := Flip(s.boxes, power)), base, division);
      && r.screen.entry == Number(BitsToDecimal(s.boxes) + BoxDelta(s.boxes, power))
  {
    var t := s.(boxes := Flip(s.boxes, power));
    ReadBackEntry(t, base, division);
    FlipDelta(s.boxes, power);
  }

  /** Two clicks on the same box in manual mode restore the boxes and the input's value. */
  lemma ClickTwiceRestores(s: Screen, power: int, base: int, division: bool)
    requires IsPattern(s.boxes) && 2 <= base
    ensures var once := ReadBack(s.(boxes := Flip(s.boxes, power)), base, division).screen;
      && var twice := ReadBack(once.(boxes := Flip(once.boxes, power)), base, division).screen;
      && twice.boxes == s.boxes
      && twice.entry == Number(BitsToDecimal(s.boxes))
  {
    FlipTwice(s.boxes, power);
    var once := ReadBack(s.(boxes := Flip(s.boxes, power)), base, division).screen;
    assert once.boxes == Flip(s.boxes, power);
    ReadBackEntry(once.(boxes := Flip(once.boxes, power)), base, division);
  }

  lemma ReadBackEntry(s: Screen, base: int, division: bool)
    requires base >= 2 && |s.boxes| == Width
    ensures ReadBack(s, base, division).screen.entry == Number(BitsToDecimal(s.boxes))
  {
  }

  lemma {:induction false} ReadPadBinary(u: int, w: nat)
    requires 0 <= u < Pow2(w)
    ensures ReadInBase(PadBinary(u, w), 2) == u
  {
    if w > 0 {
      assert Pow2(w) == 2 * Pow2(w - 1);
      ReadPadBinary(u / 2, w - 1);
      ReadSnoc(PadBinary(u / 2, w - 1), BitChar(u % 2), 2);
      DivMod(u, 2);
    }
  }

  /**
   * The quiz question is the 8-box pattern of the answer, and read as an
   * unsigned binary number it is the answer; above 127 the boxes themselves
   * would read it as `answer - 256`.
   */
  lemma QuizQuestionReadsAsAnswer(answer: int)
    requires 0 <= answer <= 255
    ensures ZFill(FormatNatural(answer, 2), Width) == Pattern(answer)
    ensures ReadInBase(ZFill(FormatNatural(answer, 2), Width), 2) == answer
    ensures RangeSum(BitsOf(answer), 0, Width) == answer
    ensures BitsToDecimal(BitsOf(answer)) == if answer <= 127 then answer else answer - 256
  {
    BinaryCardIsFilledConversion(answer);
    ReadPadBinary(answer, Width);
    PatternSum(answer);
    DecodeAfterEncode(answer);
  }
}
